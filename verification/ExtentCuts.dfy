/** Cutting a range of logical blocks out of a list of extents. */
module ExtentCuts {
  import opened ExtentFields
  import opened ExtentMap
  import opened ExtentMerges

  /** The blocks [a, b) of an extent, as an extent of its own. */
  function Piece(e: Extent, a: nat, b: nat): Extent
    requires e.first <= a <= b
  {
    Extent(a, EncodeLen(b - a, Unwritten(e.field)), e.start + (a - e.first))
  }

  /** What is left of an extent outside [from, to]: at most a head and a tail. */
  ghost function HeadOf(e: Extent, from: nat): seq<Extent> {
    if e.first < from then [if End(e) <= from then e else Piece(e, e.first, from)] else []
  }

  ghost function TailOf(e: Extent, to: nat): seq<Extent> {
    if End(e) > to + 1 then [if e.first > to then e else Piece(e, to + 1, End(e))] else []
  }

  ghost function KeptOf(e: Extent, from: nat, to: nat): seq<Extent> {
    if End(e) <= from || e.first > to then [e] else HeadOf(e, from) + TailOf(e, to)
  }

  ghost function Kept(s: seq<Extent>, from: nat, to: nat): seq<Extent> {
    if s == [] then [] else KeptOf(s[0], from, to) + Kept(s[1..], from, to)
  }

  ghost function Min(a: nat, b: nat): nat { if a < b then a else b }

  ghost function Max(a: nat, b: nat): nat { if a > b then a else b }

  /** The n physical blocks from start on. */
  function BlockRun(start: nat, n: nat): seq<nat>
    decreases n
  {
    if n == 0 then [] else [start] + BlockRun(start + 1, n - 1)
  }

  /** The physical blocks of an extent that hold a logical block in [from, to]. */
  ghost function FreedOf(e: Extent, from: nat, to: nat): seq<nat> {
    if End(e) <= from || e.first > to then [] else
      var a, b := Max(e.first, from), Min(End(e), to + 1);
      if a <= b then BlockRun(e.start + (a - e.first), b - a) else []
  }

  ghost function Freed(s: seq<Extent>, from: nat, to: nat): seq<nat> {
    if s == [] then [] else FreedOf(s[0], from, to) + Freed(s[1..], from, to)
  }

  /** All physical blocks of a list of extents. */
  ghost function Physical(s: seq<Extent>): seq<nat> {
    if s == [] then [] else BlockRun(s[0].start, Len(s[0])) + Physical(s[1..])
  }

  lemma {:induction false} KeptJoin(a: seq<Extent>, b: seq<Extent>, from: nat, to: nat)
    ensures Kept(a + b, from, to) == Kept(a, from, to) + Kept(b, from, to)
    ensures Freed(a + b, from, to) == Freed(a, from, to) + Freed(b, from, to)
  {
    if a == [] {
      assert a + b == b;
    } else {
      assert (a + b)[1..] == a[1..] + b;
      KeptJoin(a[1..], b, from, to);
    }
  }

  lemma KeptOne(e: Extent, from: nat, to: nat)
    ensures Kept([e], from, to) == KeptOf(e, from, to) && Freed([e], from, to) == FreedOf(e, from, to)
  {
    assert [e][1..] == [];
  }

  /** Extents outside the range stay as they are. */
  lemma {:induction false} KeptOutside(s: seq<Extent>, from: nat, to: nat)
    requires forall i :: 0 <= i < |s| ==> End(s[i]) <= from || s[i].first > to
    ensures Kept(s, from, to) == s && Freed(s, from, to) == []
  {
    if s != [] {
      assert forall i :: 0 <= i < |s[1..]| ==> s[1..][i] == s[i + 1];
      KeptOutside(s[1..], from, to);
    }
  }

  // ----- The map -----

  lemma PieceIs(e: Extent, a: nat, b: nat)
    requires Good(e) && e.first <= a < b <= End(e)
    ensures var p := Piece(e, a, b);
            && Good(p) && p.first == a && End(p) == b && Unwritten(p.field) == Unwritten(e.field)
            && forall x :: a <= x < b ==> PlaceOf(p, x) == PlaceOf(e, x)
  {
    EncodedLength(b - a, Unwritten(e.field));
  }

  ghost function Without(m: map<nat, Place>, from: nat, to: nat): map<nat, Place> {
    map b | b in m && !(from <= b <= to) :: m[b]
  }

  /** Where the hole around block b ends, for the position of b. */
  ghost function HoleEnd(s: seq<Extent>, at: int, b: nat): nat
    requires LeafPos(s, at, b)
  {
    if at < 0 then LOGICAL_LIMIT
    else if s[at].first > b then s[at].first
    else if at + 1 < |s| then s[at + 1].first
    else LOGICAL_LIMIT
  }

  /** A removal that starts in a hole does nothing as written. That is right exactly when the extent
      that ends the hole starts behind the range. */
  lemma HoleRemovalIff(s: seq<Extent>, at: int, from: nat, to: nat)
    requires Apart(s) && AllGood(s) && LeafPos(s, at, from) && from !in MapOf(s) && from <= to < LOGICAL_LIMIT
    ensures Without(MapOf(s), from, to) == MapOf(s) <==> to < HoleEnd(s, at, from)
  {
    hide MapOf;
    var next := HoleEnd(s, at, from);
    HoleEnds(s, at, from, next);
    if to < next {
      assert forall b :: from <= b <= to ==> b !in MapOf(s);
      assert Without(MapOf(s), from, to) == MapOf(s);
    } else {
      assert next in MapOf(s) && next !in Without(MapOf(s), from, to);
    }
  }

  lemma HoleEnds(s: seq<Extent>, at: int, b: nat, next: nat)
    requires Apart(s) && AllGood(s) && LeafPos(s, at, b) && b !in MapOf(s)
    requires next == HoleEnd(s, at, b)
    ensures forall x :: b <= x < next ==> x !in MapOf(s)
    ensures next < LOGICAL_LIMIT ==> next in MapOf(s)
  {
    hide MapOf;
    if at < 0 {
      assert s == [];
      forall x ensures x !in MapOf(s) {
        MapOfIff(s, x);
      }
    } else if s[at].first > b {
      forall x | b <= x < next ensures x !in MapOf(s) {
        MapOfIff(s, x);
      }
      GoodAt(s, at);
      MapOfAt(s, at, next);
    } else {
      forall x | b <= x < next ensures x !in MapOf(s) {
        MapOfIff(s, x);
        MapOfIff(s, b);
      }
      if at + 1 < |s| {
        GoodAt(s, at + 1);
        MapOfAt(s, at + 1, next);
      }
    }
  }

  lemma WithoutJoin(a: map<nat, Place>, b: map<nat, Place>, from: nat, to: nat)
    ensures Without(a + b, from, to) == Without(a, from, to) + Without(b, from, to)
  {}

  lemma HeadMap(e: Extent, from: nat)
    requires Good(e) && from < End(e)
    ensures MapOf(HeadOf(e, from)) == map b | b in RunOf(e) && b < from :: RunOf(e)[b]
    ensures AllGood(HeadOf(e, from)) && forall i :: 0 <= i < |HeadOf(e, from)| ==>
        HeadOf(e, from)[i].first == e.first && End(HeadOf(e, from)[i]) == from
  {
    if e.first < from {
      PieceIs(e, e.first, from);
      MapOfOne(Piece(e, e.first, from));
    }
  }

  lemma TailMap(e: Extent, to: nat)
    requires Good(e) && e.first <= to
    ensures MapOf(TailOf(e, to)) == map b | b in RunOf(e) && b > to :: RunOf(e)[b]
    ensures AllGood(TailOf(e, to)) && forall i :: 0 <= i < |TailOf(e, to)| ==>
        TailOf(e, to)[i].first == to + 1 && End(TailOf(e, to)[i]) == End(e)
  {
    if End(e) > to + 1 {
      PieceIs(e, to + 1, End(e));
      MapOfOne(Piece(e, to + 1, End(e)));
    }
  }

  lemma KeptRun(e: Extent, from: nat, to: nat)
    requires Good(e) && from <= to
    ensures MapOf(KeptOf(e, from, to)) == Without(RunOf(e), from, to)
    ensures AllGood(KeptOf(e, from, to)) && Apart(KeptOf(e, from, to))
    ensures forall i :: 0 <= i < |KeptOf(e, from, to)| ==>
        e.first <= KeptOf(e, from, to)[i].first && End(KeptOf(e, from, to)[i]) <= End(e)
  {
    hide Good;
    if End(e) <= from || e.first > to {
      MapOfOne(e);
    } else {
      hide RunOf;
      HeadMap(e, from);
      TailMap(e, to);
      MapOfJoin(HeadOf(e, from), TailOf(e, to));
    }
  }

  /** Cutting a range out of the extents is removing it from the map. */
  lemma {:induction false} KeptMap(s: seq<Extent>, from: nat, to: nat)
    requires AllGood(s) && from <= to
    ensures MapOf(Kept(s, from, to)) == Without(MapOf(s), from, to)
    ensures AllGood(Kept(s, from, to))
  {
    if s != [] {
      KeptMap(s[1..], from, to);
      KeptRun(s[0], from, to);
      MapOfJoin(KeptOf(s[0], from, to), Kept(s[1..], from, to));
      WithoutJoin(RunOf(s[0]), MapOf(s[1..]), from, to);
    }
  }

  lemma {:induction false} KeptApart(s: seq<Extent>, from: nat, to: nat, lo: nat)
    requires AllGood(s) && Apart(s) && from <= to && (s != [] ==> lo <= s[0].first)
    ensures Apart(Kept(s, from, to)) && forall i :: 0 <= i < |Kept(s, from, to)| ==> lo <= Kept(s, from, to)[i].first
  {
    if s != [] {
      KeptRun(s[0], from, to);
      assert s[1..] != [] ==> s[1..][0] == s[1];
      KeptApart(s[1..], from, to, End(s[0]));
    }
  }

  // ----- The physical blocks -----

  lemma {:induction false} BlocksJoin(start: nat, m: nat, n: nat)
    ensures BlockRun(start, m + n) == BlockRun(start, m) + BlockRun(start + m, n)
    decreases m
  {
    if m > 0 {
      BlocksJoin(start + 1, m - 1, n);
    }
  }

  lemma {:induction false} PhysicalJoin(a: seq<Extent>, b: seq<Extent>)
    ensures Physical(a + b) == Physical(a) + Physical(b)
  {
    if a == [] {
      assert a + b == b;
    } else {
      assert (a + b)[1..] == a[1..] + b;
      PhysicalJoin(a[1..], b);
    }
  }

  lemma PhysicalOne(e: Extent)
    ensures Physical([e]) == BlockRun(e.start, Len(e))
  {
    assert [e][1..] == [];
  }

  lemma PhysicalHead(e: Extent, from: nat)
    requires Good(e) && from < End(e)
    ensures Physical(HeadOf(e, from)) == BlockRun(e.start, Max(e.first, from) - e.first)
  {
    if e.first < from {
      PieceIs(e, e.first, from);
      PhysicalOne(Piece(e, e.first, from));
    }
  }

  lemma PhysicalTail(e: Extent, to: nat)
    requires Good(e) && e.first <= to
    ensures var b := Min(End(e), to + 1);
            Physical(TailOf(e, to)) == BlockRun(e.start + (b - e.first), End(e) - b)
  {
    if End(e) > to + 1 {
      PieceIs(e, to + 1, End(e));
      PhysicalOne(Piece(e, to + 1, End(e)));
    }
  }

  lemma Regroup<T>(x: seq<T>, y: seq<T>, z: seq<T>)
    ensures multiset(x + z) + multiset(y) == multiset(x + y + z)
  {
    assert multiset(x + y + z) == multiset(x) + multiset(y) + multiset(z);
    assert multiset(x + z) == multiset(x) + multiset(z);
  }

  lemma BlocksThree(start: nat, i: nat, j: nat, k: nat)
    requires i <= j <= k
    ensures BlockRun(start, k) == BlockRun(start, i) + BlockRun(start + i, j - i) + BlockRun(start + j, k - j)
  {
    BlocksJoin(start, i, j - i);
    BlocksJoin(start, j, k - j);
  }

  lemma PhysicalCut(e: Extent, from: nat, to: nat)
    requires Good(e) && from <= to
    ensures multiset(Physical(KeptOf(e, from, to))) + multiset(FreedOf(e, from, to)) == multiset(Physical([e]))
  {
    hide Good, Physical, BlockRun;
    if !(End(e) <= from || e.first > to) {
      var a, b := Max(e.first, from), Min(End(e), to + 1);
      PhysicalOne(e);
      PhysicalHead(e, from);
      PhysicalTail(e, to);
      PhysicalJoin(HeadOf(e, from), TailOf(e, to));
      BlocksThree(e.start, a - e.first, b - e.first, Len(e));
      Regroup(Physical(HeadOf(e, from)), FreedOf(e, from, to), Physical(TailOf(e, to)));
    }
  }

  /** Every physical block is either kept or freed, as often as it was there. */
  lemma {:induction false} PhysicalKept(s: seq<Extent>, from: nat, to: nat)
    requires AllGood(s) && from <= to
    ensures multiset(Physical(Kept(s, from, to))) + multiset(Freed(s, from, to)) == multiset(Physical(s))
  {
    if s != [] {
      PhysicalKept(s[1..], from, to);
      PhysicalCut(s[0], from, to);
      PhysicalOne(s[0]);
      PhysicalJoin(KeptOf(s[0], from, to), Kept(s[1..], from, to));
    }
  }

  // ----- Cutting a leaf in place -----

  /** One more extent has been looked at. */
  lemma KeptStep(s: seq<Extent>, i: nat, j: nat, from: nat, to: nat)
    requires i <= j < |s|
    ensures Kept(s[i..j + 1], from, to) == Kept(s[i..j], from, to) + KeptOf(s[j], from, to)
    ensures Freed(s[i..j + 1], from, to) == Freed(s[i..j], from, to) + FreedOf(s[j], from, to)
  {
    assert s[i..j + 1] == s[i..j] + [s[j]];
    KeptJoin(s[i..j], [s[j]], from, to);
    KeptOne(s[j], from, to);
  }

  /** Where the loop over a leaf stands: the entries from at to ex are done; start of them stay, and so
      does entry last, the tail of the one that reaches past the range. */
  ghost predicate Cutting(exts0: seq<Extent>, exts: seq<Extent>, at: nat, ex: nat, start: nat, last: int, from: nat,
      to: nat) {
    && |exts| == |exts0| && at <= ex <= |exts| && at <= start <= ex
    && (forall i :: 0 <= i < at ==> exts[i] == exts0[i]) && (forall i :: ex <= i < |exts| ==> exts[i] == exts0[i])
    && (last == -1 || (start <= last == ex - 1 && End(exts0[last]) > to + 1))
    && Kept(exts0[at..ex], from, to) == exts[at..start] + (if last == -1 then [] else [exts[last]])
  }

  /** The range can be cut out of a leaf by going through its entries once, from position at on. */
  ghost predicate Cuttable(exts: seq<Extent>, at: nat, from: nat, to: nat) {
    && Apart(exts) && AllGood(exts) && at < |exts| && from <= to
    && (forall i :: 0 <= i < at ==> End(exts[i]) <= from) && (forall i :: at < i < |exts| ==> from <= exts[i].first)
    && (exts[at].first < from ==> from < End(exts[at]) <= to + 1)
  }

  lemma CuttingStarts(exts0: seq<Extent>, at: nat, from: nat, to: nat)
    requires Cuttable(exts0, at, from, to)
    ensures Cutting(exts0, exts0, at, at, at, -1, from, to) && Freed(exts0[at..at], from, to) == []
  {
    assert exts0[at..at] == [];
  }

  /** An entry is cut and keeps its place. */
  lemma CutOne(exts0: seq<Extent>, exts: seq<Extent>, at: nat, ex: nat, start: nat, from: nat, to: nat, e: Extent)
    requires Cutting(exts0, exts, at, ex, start, -1, from, to) && ex < |exts| && KeptOf(exts0[ex], from, to) == [e]
    ensures start == ex ==> Cutting(exts0, exts[ex := e], at, ex + 1, ex + 1, -1, from, to)
    ensures End(exts0[ex]) > to + 1 ==> Cutting(exts0, exts[ex := e], at, ex + 1, start, ex, from, to)
  {
    hide Kept, KeptOf, Freed, FreedOf;
    KeptStep(exts0, at, ex, from, to);
    var r := exts[ex := e];
    assert r[at..start] == exts[at..start] && r[ex] == e;
    if start == ex {
      assert r[at..ex + 1] == r[at..ex] + [e];
      assert Kept(exts0[at..ex + 1], from, to) == r[at..ex + 1] + [];
    }
    assert Kept(exts0[at..ex + 1], from, to) == r[at..start] + [r[ex]];
  }

  lemma CutHead(exts0: seq<Extent>, exts: seq<Extent>, at: nat, from: nat, to: nat, e: Extent)
    requires Cuttable(exts0, at, from, to) && Cutting(exts0, exts, at, at, at, -1, from, to)
    requires |exts| == |exts0| && exts0[at].first < from && e == Piece(exts0[at], exts0[at].first, from)
    ensures Cutting(exts0, exts[at := e], at, at + 1, at + 1, -1, from, to)
    ensures FreedOf(exts0[at], from, to) == BlockRun(exts0[at].start + (from - exts0[at].first), End(exts0[at]) - from)
  {
    hide Cutting, BlockRun;
    CutOne(exts0, exts, at, at, at, from, to, e);
  }

  lemma CutTail(exts0: seq<Extent>, exts: seq<Extent>, at: nat, ex: nat, start: nat, from: nat, to: nat, e: Extent)
    requires Cuttable(exts0, at, from, to) && Cutting(exts0, exts, at, ex, start, -1, from, to)
        && ex < |exts0| == |exts|
    requires from <= exts0[ex].first <= to < End(exts0[ex]) - 1 && e == Piece(exts0[ex], to + 1, End(exts0[ex]))
    ensures Cutting(exts0, exts[ex := e], at, ex + 1, start, ex, from, to)
    ensures FreedOf(exts0[ex], from, to) == BlockRun(exts0[ex].start, to + 1 - exts0[ex].first)
  {
    hide Cutting, BlockRun, Cuttable;
    CutOne(exts0, exts, at, ex, start, from, to, e);
  }

  lemma CutAll(exts0: seq<Extent>, exts: seq<Extent>, at: nat, ex: nat, start: nat, from: nat, to: nat)
    requires Cuttable(exts0, at, from, to) && Cutting(exts0, exts, at, ex, start, -1, from, to)
        && ex < |exts0| == |exts|
    requires from <= exts0[ex].first && End(exts0[ex]) <= to + 1
    ensures Cutting(exts0, exts, at, ex + 1, start, -1, from, to)
    ensures FreedOf(exts0[ex], from, to) == BlockRun(exts0[ex].start, Len(exts0[ex]))
  {
    hide BlockRun;
    KeptStep(exts0, at, ex, from, to);
    assert Good(exts0[ex]);
  }

  lemma BeyondRange(exts: seq<Extent>, at: nat, ex: nat, from: nat, to: nat)
    requires Cuttable(exts, at, from, to) && ex <= |exts| && (ex < |exts| ==> exts[ex].first > to)
    ensures forall i :: 0 <= i < |exts[ex..]| ==> End(exts[ex..][i]) <= from || exts[ex..][i].first > to
  {
    forall i | 0 <= i < |exts[ex..]|
      ensures exts[ex..][i].first > to
    {
      assert exts[ex..][i] == exts[ex + i];
      assert i > 0 ==> End(exts[ex]) <= exts[ex + i].first;
      assert Good(exts[ex]);
    }
  }

  lemma BeforeRange(exts: seq<Extent>, at: nat, from: nat, to: nat)
    requires Cuttable(exts, at, from, to)
    ensures forall i :: 0 <= i < |exts[..at]| ==> End(exts[..at][i]) <= from || exts[..at][i].first > to
  {
    assert forall i :: 0 <= i < at ==> exts[..at][i] == exts[i];
  }

  lemma CutSplit(exts: seq<Extent>, at: nat, ex: nat, from: nat, to: nat)
    requires Cuttable(exts, at, from, to) && at <= ex <= |exts| && (ex < |exts| ==> exts[ex].first > to)
    ensures Kept(exts, from, to) == exts[..at] + Kept(exts[at..ex], from, to) + exts[ex..]
    ensures Freed(exts, from, to) == Freed(exts[at..ex], from, to)
  {
    hide Kept, Freed, Apart, AllGood, Cuttable;
    var a, b, c := exts[..at], exts[at..ex], exts[ex..];
    assert exts == a + b + c;
    KeptJoin(a + b, c, from, to);
    KeptJoin(a, b, from, to);
    BeforeRange(exts, at, from, to);
    BeyondRange(exts, at, ex, from, to);
    KeptOutside(a, from, to);
    KeptOutside(c, from, to);
  }

  lemma CutDone(exts0: seq<Extent>, exts: seq<Extent>, at: nat, ex: nat, start: nat, last: int, from: nat, to: nat)
    requires Cuttable(exts0, at, from, to) && Cutting(exts0, exts, at, ex, start, last, from, to)
    requires ex < |exts| ==> exts[ex].first > to
    ensures 0 <= start <= |exts| && 0 <= (if last == -1 then ex else last) <= |exts|
    ensures exts[..start] + exts[if last == -1 then ex else last..] == Kept(exts0, from, to)
    ensures Freed(exts0, from, to) == Freed(exts0[at..ex], from, to)
  {
    hide Kept, Freed, Cuttable;
    CutSplit(exts0, at, ex, from, to);
    assert exts[..start] == exts0[..at] + exts[at..start];
    assert exts[ex..] == exts0[ex..];
    assert last != -1 ==> exts[last..] == [exts[last]] + exts[ex..];
  }

  lemma EntryFacts(exts0: seq<Extent>, exts: seq<Extent>, at: nat, ex: nat, start: nat, last: int, from: nat, to: nat)
    requires Cuttable(exts0, at, from, to) && Cutting(exts0, exts, at, ex, start, last, from, to) && ex < |exts|
    ensures |exts| == |exts0| && at <= start <= ex && exts[ex] == exts0[ex] && (last == -1 || last == ex - 1)
    ensures 0 < Len(exts[ex]) && (exts[ex].first < from ==> ex == at && from < End(exts[ex]) <= to + 1)
    ensures ex + 1 < |exts| ==> exts[ex + 1] == exts0[ex + 1] && End(exts[ex]) <= exts[ex + 1].first
  {
    assert Good(exts0[ex]);
  }

  lemma ClipOne(e: Extent, from: nat, to: nat, lo: nat, hi: nat)
    requires lo <= e.first && e.first < End(e) <= hi + 1
    ensures KeptOf(e, Max(from, lo), Min(to, hi)) == KeptOf(e, from, to)
    ensures FreedOf(e, Max(from, lo), Min(to, hi)) == FreedOf(e, from, to)
  {}

  /** Clipping the range to the blocks that the extents reach changes nothing. */
  lemma {:induction false} KeptClip(s: seq<Extent>, from: nat, to: nat, lo: nat, hi: nat)
    requires forall i :: 0 <= i < |s| ==> lo <= s[i].first && s[i].first < End(s[i]) <= hi + 1
    ensures Kept(s, Max(from, lo), Min(to, hi)) == Kept(s, from, to)
    ensures Freed(s, Max(from, lo), Min(to, hi)) == Freed(s, from, to)
  {
    hide KeptOf, FreedOf, Max, Min;
    if s != [] {
      assert forall i :: 0 <= i < |s[1..]| ==> s[1..][i] == s[i + 1];
      KeptClip(s[1..], from, to, lo, hi);
      ClipOne(s[0], from, to, lo, hi);
    }
  }

  lemma ClipCuttable(s: seq<Extent>, at: nat, from: nat, to: nat)
    requires Cuttable(s, at, from, to) && s[at].first <= to
    ensures var f, t := Max(from, s[0].first), Min(to, End(s[|s| - 1]) - 1);
            Cuttable(s, at, f, t) && Kept(s, f, t) == Kept(s, from, to) && Freed(s, f, t) == Freed(s, from, to)
  {
    var lo, hi := s[0].first, End(s[|s| - 1]) - 1;
    forall i | 0 <= i < |s|
      ensures lo <= s[i].first && s[i].first < End(s[i]) <= hi + 1
    {
      assert Good(s[i]) && Good(s[0]) && Good(s[|s| - 1]);
      assert i > 0 ==> End(s[0]) <= s[i].first;
      assert i < |s| - 1 ==> End(s[i]) <= s[|s| - 1].first;
    }
    KeptClip(s, from, to, lo, hi);
  }

  /** Cutting a leaf gives no extent more, and keeps the entries before the range. */
  lemma CutShape(s: seq<Extent>, at: nat, from: nat, to: nat)
    requires Cuttable(s, at, from, to)
    ensures at <= |Kept(s, from, to)| <= |s| && Kept(s, from, to)[..at] == s[..at]
    ensures Kept(s, from, to) != [] ==> Kept(s, from, to)[0].first >= s[0].first
    ensures at > 0 ==> Kept(s, from, to) != [] && Kept(s, from, to)[0] == s[0]
    decreases |s|
  {
    hide Kept, Good;
    KeptApart(s, from, to, s[0].first);
    BeforeRange(s, at, from, to);
    KeptOutside(s[..at], from, to);
    assert s == s[..at] + s[at..];
    KeptJoin(s[..at], s[at..], from, to);
    KeptShorter(s[at..], from, to);
  }

  lemma {:induction false} KeptShorter(s: seq<Extent>, from: nat, to: nat)
    requires forall i :: 0 <= i < |s| ==> s[i].first >= from || End(s[i]) <= to + 1
    ensures |Kept(s, from, to)| <= |s|
  {
    if s != [] {
      assert forall i :: 0 <= i < |s[1..]| ==> s[1..][i] == s[i + 1];
      KeptShorter(s[1..], from, to);
    }
  }

  /** The range lies strictly inside one extent. */
  ghost predicate Inside(s: seq<Extent>, from: nat, to: nat) {
    exists i :: 0 <= i < |s| && s[i].first < from && to + 1 < End(s[i])
  }

  lemma InsideIs(s: seq<Extent>, n: nat, from: nat, to: nat)
    requires Apart(s) && AllGood(s) && n < |s| && s[n].first <= from < End(s[n]) && from <= to
    ensures Inside(s, from, to) <==> s[n].first < from && to + 1 < End(s[n])
  {
    if i :| 0 <= i < |s| && s[i].first < from && to + 1 < End(s[i]) {
      assert i < n ==> End(s[i]) <= s[n].first;
      assert n < i ==> End(s[n]) <= s[i].first;
    }
  }

  lemma PartsGood(e: Extent, from: nat, to: nat)
    requires Good(e) && e.first < from <= to && to + 1 < End(e)
    ensures var head, tail := Piece(e, e.first, from), Piece(e, to + 1, End(e));
            && Good(head) && Good(tail) && tail.first == to + 1 && head.first == e.first && End(head) == from
              && End(tail) == End(e)
            && Merged(head, tail).None? && KeptOf(e, from, to) == [head, tail]
  {
    PieceIs(e, e.first, from);
    PieceIs(e, to + 1, End(e));
  }

  lemma InsideKept(s: seq<Extent>, n: nat, from: nat, to: nat)
    requires Apart(s) && AllGood(s) && n < |s| && s[n].first < from <= to && to + 1 < End(s[n])
    ensures var head, tail := Piece(s[n], s[n].first, from), Piece(s[n], to + 1, End(s[n]));
            Kept(s, from, to) == Inserted(s[n := head], n + 1, tail)
  {
    hide Kept, Good, KeptOf, Piece;
    var e := s[n];
    var head, tail := Piece(e, e.first, from), Piece(e, to + 1, End(e));
    var a, b := s[..n], s[n + 1..];
    GoodAt(s, n);
    PartsGood(e, from, to);
    assert forall i :: 0 <= i < |a| ==> End(a[i]) <= e.first;
    assert forall i :: 0 <= i < |b| ==> b[i] == s[n + 1 + i] && b[i].first >= End(e);
    assert s == a + [e] + b;
    KeptAround(a, e, b, from, to);
    Replaced2(s, n, head, tail);
  }

  lemma Replaced2<T>(s: seq<T>, n: nat, x: T, y: T)
    requires n < |s|
    ensures s[..n] + [x, y] + s[n + 1..] == s[n := x][..n + 1] + [y] + s[n := x][n + 1..]
  {}

  lemma KeptAround(a: seq<Extent>, e: Extent, b: seq<Extent>, from: nat, to: nat)
    requires forall i :: 0 <= i < |a| ==> End(a[i]) <= from || a[i].first > to
    requires forall i :: 0 <= i < |b| ==> End(b[i]) <= from || b[i].first > to
    ensures Kept(a + [e] + b, from, to) == a + KeptOf(e, from, to) + b
  {
    hide Kept, KeptOf;
    KeptJoin(a + [e], b, from, to);
    KeptJoin(a, [e], from, to);
    KeptOne(e, from, to);
    KeptOutside(a, from, to);
    KeptOutside(b, from, to);
  }

  /** A range strictly inside one extent leaves a head in its place and a tail after it. */
  lemma InsideCut(s: seq<Extent>, n: nat, from: nat, to: nat)
    requires Apart(s) && AllGood(s) && n < |s| && s[n].first < from <= to && to + 1 < End(s[n])
    ensures var head, tail := Piece(s[n], s[n].first, from), Piece(s[n], to + 1, End(s[n]));
            && Kept(s, from, to) == Inserted(s[n := head], n + 1, tail)
            && Apart(s[n := head]) && AllGood(s[n := head]) && Good(head) && Good(tail) && Clear(s[n := head], tail)
            && tail.first == to + 1 && head.first == s[n].first && Merged(head, tail).None?
  {
    hide Kept, Good, KeptOf, Piece;
    var head, tail := Piece(s[n], s[n].first, from), Piece(s[n], to + 1, End(s[n]));
    InsideKept(s, n, from, to);
    GoodAt(s, n);
    PartsGood(s[n], from, to);
    Shortened(s, n, head, tail);
  }

  lemma Shortened(s: seq<Extent>, n: nat, head: Extent, tail: Extent)
    requires Apart(s) && AllGood(s) && n < |s| && Good(head)
    requires head.first == s[n].first && End(head) <= tail.first && End(tail) == End(s[n]) && s[n].first <= tail.first
    ensures Apart(s[n := head]) && AllGood(s[n := head]) && Clear(s[n := head], tail)
  {
    hide Good;
    var r := s[n := head];
    forall i, j | 0 <= i < j < |r|
      ensures End(r[i]) <= r[j].first
    {
      assert End(s[i]) <= s[j].first;
    }
    assert forall i :: 0 <= i < |r| && i != n ==> Good(s[i]) && r[i] == s[i];
    forall i | 0 <= i < |r|
      ensures End(r[i]) <= tail.first || End(tail) <= r[i].first
    {
      assert i < n ==> End(s[i]) <= s[n].first;
      assert i > n ==> End(s[n]) <= s[i].first;
    }
  }

  lemma PlacedBetween(s: seq<Extent>, k: nat, n: Extent)
    requires k <= |s| && Apart(Inserted(s, k, n))
    ensures forall i :: 0 <= i < k ==> End(s[i]) <= n.first
    ensures forall i :: k <= i < |s| ==> End(n) <= s[i].first
  {
    var r := Inserted(s, k, n);
    InsertedAt(s, k, n);
    assert forall i :: 0 <= i < k ==> r[i] == s[i] && End(r[i]) <= r[k].first;
    assert forall i :: k <= i < |s| ==> r[i + 1] == s[i] && End(r[k]) <= r[i + 1].first;
  }

  /** Order leaves one place for a new extent. */
  lemma OnePlace(s: seq<Extent>, k: nat, k': nat, n: Extent)
    requires k <= |s| && k' <= |s| && Apart(Inserted(s, k, n)) && Apart(Inserted(s, k', n)) && AllGood(s) && Good(n)
    ensures k == k'
  {
    var i := if k < k' then k else k';
    if i < |s| {
      GoodAt(s, i);
    }
    PlacedBetween(s, k, n);
    PlacedBetween(s, k', n);
  }
}
