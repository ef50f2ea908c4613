/** What stored extents and tree blocks mean, said of their fields alone: the statements here use none of
    the readers that the operations share with their contracts.
  */
module ExtentMeaning {
  import opened ExtentFields
  import opened ExtentMap
  import opened ExtentShape
  import opened ExtentPlaces
  import opened ExtentChanges
  import opened ExtentMerges
  import opened ExtentSplits
  import opened ExtentCuts
  import opened ExtentConversions

  // ----- Extents -----

  /** Block b is one of the blocks of an extent: a field above 0x8000 is that of an unwritten extent, whose
      length is the rest. */
  ghost predicate InRange(e: Extent, b: nat) {
    e.first <= b < e.first + if e.field <= 0x8000 then e.field else e.field - 0x8000
  }

  /** A block is mapped exactly when it is in the range of an extent, to the block of the extent that lies
      as far behind its start; it is written unless the field says otherwise. */
  ghost predicate MapRight(s: seq<Extent>, m: map<nat, Place>, b: nat) {
    && (b in m <==> exists i :: 0 <= i < |s| && InRange(s[i], b))
    && forall i :: 0 <= i < |s| && InRange(s[i], b) ==>
         m[b] == Place(s[i].start + (b - s[i].first), s[i].field <= 0x8000)
  }

  lemma MapMeans(s: seq<Extent>, b: nat)
    requires Apart(s)
    ensures MapRight(s, MapOf(s), b)
  {
    hide MapOf;
    MapOfIff(s, b);
    assert forall e: Extent {:trigger InRange(e, b)} :: InRange(e, b) <==> e.first <= b < End(e);
    if i :| 0 <= i < |s| && s[i].first <= b < End(s[i]) {
      assert InRange(s[i], b);
    }
    forall i | 0 <= i < |s| && InRange(s[i], b)
      ensures b in MapOf(s) && MapOf(s)[b] == Place(s[i].start + (b - s[i].first), s[i].field <= 0x8000)
    {
      MapOfAt(s, i, b);
    }
  }

  /** n begins, on the disk and in the file, where e ends. */
  ghost predicate Follows(e: Extent, n: Extent) {
    var len := if e.field <= 0x8000 then e.field else e.field - 0x8000;
    n.first == e.first + len && n.start == e.start + len
  }

  /** The blocks of both make an extent of the state of e: 32768 written blocks or 32767 unwritten ones. */
  ghost predicate Fit(e: Extent, n: Extent) {
    var total := (if e.field <= 0x8000 then e.field else e.field - 0x8000)
                 + (if n.field <= 0x8000 then n.field else n.field - 0x8000);
    total <= if e.field <= 0x8000 then 32768 else 32767
  }

  /** The blocks of both, from the given places on, in the state of e. */
  ghost function JointExtent(first: nat, start: nat, e: Extent, n: Extent): Extent {
    var total := (if e.field <= 0x8000 then e.field else e.field - 0x8000)
                 + (if n.field <= 0x8000 then n.field else n.field - 0x8000);
    Extent(first, if e.field <= 0x8000 then total else 0x8000 + total, start)
  }

  /** When the source merges, and into what. */
  lemma MergeMeans(e: Extent, n: Extent)
    requires Good(e) && Good(n)
    ensures Merged(e, n) ==
            if Follows(e, n) && Fit(e, n) then Some(JointExtent(e.first, e.start, e, n))
            else if Follows(n, e) && Fit(e, n) then Some(JointExtent(n.first, e.start, e, n))
            else None
  {}

  /** An extent of a list that n follows, and that n fits to, is the one a search for n finds. */
  lemma FollowedFound(s: seq<Extent>, i: nat, at: int, n: Extent)
    requires Apart(s) && AllGood(s) && Good(n) && Clear(s, n) && LeafPos(s, at, n.first)
    requires i < |s| && Follows(s[i], n)
    ensures at == i && s[at].first != n.first
  {
    GoodAt(s, i);
    if i + 1 < |s| {
      assert End(s[i]) <= s[i + 1].first;
      GoodAt(s, i + 1);
      assert s[i + 1].first != n.first;
    }
    assert forall k :: i < k < |s| ==> End(s[i]) <= s[k].first;
    assert forall k :: 0 <= k < i ==> End(s[k]) <= s[i].first;
  }

  /** A new extent that follows one of the list, and fits to it, merges with it. */
  lemma JointIsMerged(s: seq<Extent>, at: int, n: Extent)
    requires Apart(s) && AllGood(s) && Good(n) && Clear(s, n) && LeafPos(s, at, n.first)
    ensures forall i :: 0 <= i < |s| && Follows(s[i], n) && Fit(s[i], n) ==>
              at == i && !StartsAt(s, at, n.first)
              && MergedAt(s, at, n) == Some(JointExtent(s[i].first, s[i].start, s[i], n))
  {
    hide Follows, Fit, JointExtent, Merged, Good;
    forall i | 0 <= i < |s| && Follows(s[i], n) && Fit(s[i], n)
      ensures at == i && !StartsAt(s, at, n.first)
      ensures MergedAt(s, at, n) == Some(JointExtent(s[i].first, s[i].start, s[i], n))
    {
      FollowedFound(s, i, at, n);
      GoodAt(s, i);
      MergeMeans(s[i], n);
    }
  }

  /** The freed blocks of one extent. */
  lemma {:induction false} PhysicalRun(e: Extent, from: nat, to: nat)
    requires Good(e)
    ensures FreedOf(e, from, to) == PhysicalIn(RunOf(e), from, if to + 1 > from then to + 1 - from else 0)
  {
    var n := if to + 1 > from then to + 1 - from else 0;
    if End(e) <= from || e.first > to {
      NothingIn(RunOf(e), from, n);
    } else {
      var a, b := Max(e.first, from), Min(End(e), to + 1);
      if a <= b {
        InParts(RunOf(e), from, a - from, n);
        InParts(RunOf(e), a, b - a, from + n - a);
        NothingIn(RunOf(e), from, a - from);
        NothingIn(RunOf(e), b, from + n - b);
        AllIn(e, a, b - a);
      } else {
        NothingIn(RunOf(e), from, n);
      }
    }
  }

  // ----- Changes of the map -----

  /** after maps what before maps, but for the blocks in [from, to]. */
  ghost predicate RemovedFrom(before: map<nat, Place>, after: map<nat, Place>, from: nat, to: nat) {
    && (forall b :: b in after <==> b in before && (b < from || to < b))
    && forall b :: b in after ==> after[b] == before[b]
  }

  /** after maps each block to where before maps it, and the blocks in [from, to) are written as well. */
  ghost predicate WrittenAlso(before: map<nat, Place>, after: map<nat, Place>, from: nat, to: nat) {
    && (forall b :: b in after <==> b in before)
    && forall b :: b in after ==>
         after[b].block == before[b].block && (after[b].written <==> before[b].written || from <= b < to)
  }

  lemma WithoutMeans(m: map<nat, Place>, from: nat, to: nat)
    ensures RemovedFrom(m, Without(m, from, to), from, to)
  {}

  lemma WrittenMeans(m: map<nat, Place>, from: nat, to: nat)
    ensures WrittenAlso(m, WrittenIn(m, from, to), from, to)
  {}

  // ----- Freed blocks -----

  /** The physical blocks of the n logical blocks from a on that are mapped, in their order. */
  ghost function PhysicalIn(m: map<nat, Place>, a: nat, n: nat): seq<nat>
    decreases n
  {
    if n == 0 then [] else (if a in m then [m[a].block] else []) + PhysicalIn(m, a + 1, n - 1)
  }

  lemma {:induction false} InParts(m: map<nat, Place>, a: nat, k: nat, n: nat)
    requires k <= n
    ensures PhysicalIn(m, a, n) == PhysicalIn(m, a, k) + PhysicalIn(m, a + k, n - k)
    decreases k
  {
    if k > 0 {
      InParts(m, a + 1, k - 1, n - 1);
    }
  }

  lemma {:induction false} NothingIn(m: map<nat, Place>, a: nat, n: nat)
    requires forall x :: a <= x < a + n ==> x !in m
    ensures PhysicalIn(m, a, n) == []
    decreases n
  {
    if n > 0 {
      NothingIn(m, a + 1, n - 1);
    }
  }

  lemma {:induction false} AllIn(e: Extent, a: nat, n: nat)
    requires e.first <= a && a + n <= End(e)
    ensures PhysicalIn(RunOf(e), a, n) == BlockRun(e.start + (a - e.first), n)
    decreases n
  {
    if n > 0 {
      AllIn(e, a + 1, n - 1);
    }
  }

  /** The blocks freed from a list of extents are the physical blocks of the range, each once for every
      logical block that it holds, in the order of the logical blocks. */
  lemma {:induction false} FreedMeans(s: seq<Extent>, from: nat, to: nat)
    requires Apart(s) && AllGood(s) && from <= to
    ensures Freed(s, from, to) == PhysicalIn(MapOf(s), from, to + 1 - from)
  {
    hide FreedOf, RunOf, Good, Apart, AllGood, PhysicalIn;
    var n := to + 1 - from;
    if s == [] {
      NothingIn(MapOf(s), from, n);
    } else {
      var e, rest := s[0], s[1..];
      RestOf(s);
      FreedMeans(rest, from, to);
      GoodAt(s, 0);
      PhysicalRun(e, from, to);
      OneBefore(e, rest);
      OneAfterOther(RunOf(e), MapOf(rest), End(e), from, n);
    }
  }

  /** The blocks of two maps, all of the first before all of the second. */
  lemma OneAfterOther(p: map<nat, Place>, q: map<nat, Place>, border: nat, from: nat, n: nat)
    requires (forall x :: x in p ==> x < border) && forall x :: x in q ==> border <= x
    ensures PhysicalIn(p + q, from, n) == PhysicalIn(p, from, n) + PhysicalIn(q, from, n)
  {
    hide PhysicalIn;
    if border <= from {
      OnlySecond(p, q, from, n);
    } else if from + n <= border {
      OnlyFirst(p, q, from, n);
    } else {
      var k := border - from;
      OnlyFirst(p, q, from, k);
      OnlySecond(p, q, from + k, n - k);
      InTwoParts(p + q, p, q, from, k, n);
    }
  }

  lemma InTwoParts(w: map<nat, Place>, p: map<nat, Place>, q: map<nat, Place>, a: nat, k: nat, n: nat)
    requires k <= n && PhysicalIn(w, a, k) == PhysicalIn(p, a, k) && PhysicalIn(q, a, k) == []
    requires PhysicalIn(w, a + k, n - k) == PhysicalIn(q, a + k, n - k) && PhysicalIn(p, a + k, n - k) == []
    ensures PhysicalIn(w, a, n) == PhysicalIn(p, a, n) + PhysicalIn(q, a, n)
  {
    hide PhysicalIn;
    InParts(w, a, k, n);
    InParts(p, a, k, n);
    InParts(q, a, k, n);
    assert PhysicalIn(p, a, n) == PhysicalIn(p, a, k);
    assert PhysicalIn(q, a, n) == PhysicalIn(q, a + k, n - k);
  }

  lemma {:induction false} OnlyFirst(p: map<nat, Place>, q: map<nat, Place>, a: nat, n: nat)
    requires n > 0 ==> forall x :: x in q ==> a + n <= x
    ensures PhysicalIn(p + q, a, n) == PhysicalIn(p, a, n) && PhysicalIn(q, a, n) == []
    decreases n
  {
    if n > 0 {
      assert a !in q;
      OnlyFirst(p, q, a + 1, n - 1);
    }
  }

  lemma {:induction false} OnlySecond(p: map<nat, Place>, q: map<nat, Place>, a: nat, n: nat)
    requires n > 0 ==> forall x :: x in p ==> x < a
    ensures PhysicalIn(p + q, a, n) == PhysicalIn(q, a, n) && PhysicalIn(p, a, n) == []
    decreases n
  {
    if n > 0 {
      assert a !in p;
      OnlySecond(p, q, a + 1, n - 1);
    }
  }

  lemma RestOf(s: seq<Extent>)
    requires s != [] && Apart(s) && AllGood(s)
    ensures Apart(s[1..]) && AllGood(s[1..]) && forall i :: 0 <= i < |s[1..]| ==> End(s[0]) <= s[1..][i].first
  {
    var r := s[1..];
    assert forall i :: 0 <= i < |r| ==> r[i] == s[i + 1];
  }

  lemma OneBefore(e: Extent, rest: seq<Extent>)
    requires forall i :: 0 <= i < |rest| ==> End(e) <= rest[i].first
    ensures forall x :: x in RunOf(e) ==> x < End(e)
    ensures forall x :: x in MapOf(rest) ==> End(e) <= x
  {
    forall x | x in MapOf(rest) ensures End(e) <= x {
      MapOfIff(rest, x);
    }
  }

  // ----- Tree blocks -----

  /** struct ext4_extent_header, struct ext4_extent and struct ext4_extent_index have 12 bytes each, and
      the root lies in the 60 bytes of i_block: it has room for as many entries as fit, and no more. */
  lemma RootCapacity()
    ensures 12 + 12 * ROOT_SPACE <= 60 < 12 + 12 * (ROOT_SPACE + 1)
  {}

  /** The extents that one reads in the stored blocks, from block b at depth d down. */
  ghost function Read(m: Store, b: nat, d: nat): seq<Extent>
    decreases d, 0
  {
    if b !in m then []
    else match m[b]
      case Leaf(_, exts) => exts
      case Inner(_, _, idxs) => if d == 0 then [] else ReadAll(m, idxs, d - 1)
  }

  ghost function ReadAll(m: Store, idxs: seq<Index>, d: nat): seq<Extent>
    decreases d, |idxs| + 1
  {
    if idxs == [] then [] else Read(m, idxs[0].leaf, d) + ReadAll(m, idxs[1..], d)
  }

  lemma {:induction false} ReadIs(m: Store, t: Tree, d: nat, cap: nat, space: nat)
    requires Rep(m, t, d, cap, space)
    ensures Read(m, t.block, d) == Exts(t)
    decreases d, 0
  {
    if t.Fork? {
      ReadAllIs(m, t.kids, d - 1, space);
    }
  }

  lemma {:induction false} ReadAllIs(m: Store, kids: seq<Kid>, d: nat, space: nat)
    requires KidsRep(m, kids, d, space)
    ensures ReadAll(m, Entries(kids), d) == KidsExts(kids)
    decreases d, |kids| + 1
  {
    if kids != [] {
      var es := Entries(kids);
      assert es[1..] == Entries(kids[1..]) && es[0].leaf == kids[0].tree.block;
      ReadIs(m, kids[0].tree, d, space, space);
      assert forall i :: 0 <= i < |kids[1..]| ==> kids[1..][i] == kids[i + 1];
      ReadAllIs(m, kids[1..], d, space);
    }
  }

  /** The block that an index entry points to: one level down, not empty, with the key of the entry first. */
  ghost predicate ChildRight(m: Store, idx: Index, d: nat) {
    && idx.leaf in m && idx.leaf != 0
    && match m[idx.leaf]
       case Leaf(_, exts) => d == 0 && exts != [] && exts[0].first == idx.first
       case Inner(depth, _, idxs) => d > 0 && depth == d && idxs != [] && idxs[0].first == idx.first
  }

  /** A block of a file's tree by itself: its capacity, its count, the order of its entries, and what its
      index entries point to. The root is block 0, with room for 4 entries. */
  ghost predicate BlockRight(m: Store, b: nat, space: nat)
    requires b in m
  {
    match m[b]
    case Leaf(max, exts) =>
      && max == (if b == 0 then 4 else space) && |exts| <= max && (b == 0 || exts != [])
      && forall i, j :: 0 <= i < j < |exts| ==>
           exts[i].first + (if exts[i].field <= 0x8000 then exts[i].field else exts[i].field - 0x8000) <= exts[j].first
    case Inner(depth, max, idxs) =>
      && depth > 0 && max == (if b == 0 then 4 else space) && 0 < |idxs| <= max
      && (forall i, j :: 0 <= i < j < |idxs| ==> idxs[i].first < idxs[j].first)
      && forall i :: 0 <= i < |idxs| ==> ChildRight(m, idxs[i], depth - 1)
  }

  /** The place of a block in a stored tree. */
  lemma {:induction false} PlaceOfBlock(m: Store, t: Tree, d: nat, cap: nat, space: nat, b: nat)
    returns (ctx: Ctx, sub: Tree, k: nat)
    requires Rep(m, t, d, cap, space) && b in Blocks(t)
    ensures Plug(ctx, sub) == t && sub.block == b && k + Level(ctx) == d
    decreases d
  {
    if t.block == b {
      return Top, t, d;
    }
    var i := KidWith(t.kids, b);
    var inner;
    inner, sub, k := PlaceOfBlock(m, t.kids[i].tree, d - 1, space, space, b);
    var outer := Down(Top, t, i);
    JoinedPlug(inner, outer, sub);
    ctx := Joined(inner, outer);
  }

  lemma {:induction false} KidWith(kids: seq<Kid>, b: nat) returns (i: nat)
    requires b in KidsBlocks(kids)
    ensures i < |kids| && b in Blocks(kids[i].tree)
    decreases kids
  {
    if b in Blocks(kids[0].tree) {
      i := 0;
    } else {
      i := KidWith(kids[1..], b);
      i := i + 1;
    }
  }

  /** In a well-formed stored tree every block is right, and the blocks read from the root give the
      extents of the tree. */
  lemma StoreMeans(m: Store, whole: Tree, space: nat)
    requires Stored(m, whole, space) && WellFormed(whole, DepthOf(m), space)
    ensures Read(m, 0, DepthOf(m)) == Exts(whole)
    ensures forall b :: b in m ==> BlockRight(m, b, space)
  {
    hide BlockRight, WellFormed, Blocks;
    ReadIs(m, whole, DepthOf(m), ROOT_SPACE, space);
    forall b | b in m ensures BlockRight(m, b, space) {
      assert b in Blocks(whole);
      var ctx, sub, k := PlaceOfBlock(m, whole, DepthOf(m), ROOT_SPACE, space, b);
      if k == 0 {
        LeafRight(m, whole, ctx, sub, space);
      } else {
        InnerRight(m, whole, ctx, sub, k, space);
      }
    }
  }

  lemma LeafRight(m: Store, whole: Tree, ctx: Ctx, t: Tree, space: nat)
    requires Stored(m, whole, space) && WellFormed(whole, DepthOf(m), space) && Plug(ctx, t) == whole
    requires Level(ctx) == DepthOf(m)
    ensures t.block in m && BlockRight(m, t.block, space)
  {
    hide CtxSound, Rep, KidsRep, CtxRep, KidsExts, KidsSound, KidsFilled, Plug;
    SearchFacts(m, whole, ctx, t, 0, space);
    PlaceFacts(m, whole, ctx, t, 0, space);
    PlaceFilled(ctx, t);
    PlugExts(ctx, t);
    PartApart(Pre(ctx), t.exts, Post(ctx));
  }

  lemma PlaceFilled(ctx: Ctx, t: Tree)
    requires Plug(ctx, t).Tip? || Filled(Plug(ctx, t))
    ensures ctx.Top? || Filled(t)
  {
    PlugFilled(ctx, t);
    TipAtBottom(ctx, t);
  }

  lemma PartApart(a: seq<Extent>, s: seq<Extent>, b: seq<Extent>)
    requires Apart(a + s + b)
    ensures forall i, j :: 0 <= i < j < |s| ==>
              s[i].first + (if s[i].field <= 0x8000 then s[i].field else s[i].field - 0x8000) <= s[j].first
  {
    var w := a + s + b;
    assert forall i :: 0 <= i < |s| ==> w[|a| + i] == s[i];
    forall i, j | 0 <= i < j < |s|
      ensures s[i].first + (if s[i].field <= 0x8000 then s[i].field else s[i].field - 0x8000) <= s[j].first
    {
      assert End(w[|a| + i]) <= w[|a| + j].first;
    }
  }

  lemma InnerRight(m: Store, whole: Tree, ctx: Ctx, t: Tree, k: nat, space: nat)
    requires Stored(m, whole, space) && WellFormed(whole, DepthOf(m), space) && Plug(ctx, t) == whole
    requires k + Level(ctx) == DepthOf(m) && k > 0
    ensures t.block in m && BlockRight(m, t.block, space)
  {
    hide Sound, CtxSound, Rep, KidsRep, CtxRep, Exts, KidsExts, ChildRight, WellFormed, Filled, KidsFilled;
    SearchFacts(m, whole, ctx, t, k, space);
    PlaceFacts(m, whole, ctx, t, k, space);
    KidsCounted(ctx, t, k, space);
    forall i | 0 <= i < |t.kids| ensures ChildRight(m, Index(t.kids[i].key, t.kids[i].tree.block), k - 1) {
      KidRight(m, whole, ctx, t, k, i, space);
    }
  }

  lemma KidsCounted(ctx: Ctx, t: Tree, k: nat, space: nat)
    requires PlaceSound(ctx, t, k, space) && t.Fork? && Filled(t)
    ensures 0 < |t.kids| <= Cap(ctx, space)
  {
    hide KidsSound, KidsFilled;
  }

  lemma KidRight(m: Store, whole: Tree, ctx: Ctx, t: Tree, k: nat, i: nat, space: nat)
    requires Stored(m, whole, space) && WellFormed(whole, DepthOf(m), space) && Plug(ctx, t) == whole
    requires k + Level(ctx) == DepthOf(m) && k > 0 && t.Fork? && i < |t.kids|
    ensures ChildRight(m, Index(t.kids[i].key, t.kids[i].tree.block), k - 1)
  {
    hide Sound, CtxSound, Rep, KidsRep, CtxRep, Exts, KidsExts, KidsFilled, Fill;
    var c, kid := Down(ctx, t, i), t.kids[i].tree;
    DownIs(ctx, t, i);
    SearchFacts(m, whole, c, kid, k - 1, space);
    PlaceFacts(m, whole, c, kid, k - 1, space);
    PlaceFilled(c, kid);
  }

  lemma DownIs(ctx: Ctx, t: Tree, i: nat)
    requires t.Fork? && i < |t.kids|
    ensures var c := Down(ctx, t, i);
      !c.Top? && c.key == t.kids[i].key && Level(c) == Level(ctx) + 1 && Plug(c, t.kids[i].tree) == Plug(ctx, t)
  {
    hide Fill;
  }
}
