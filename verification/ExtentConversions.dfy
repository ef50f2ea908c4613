/** Turning part of an unwritten extent into written blocks. */
module ExtentConversions {
  import opened ExtentFields
  import opened ExtentMap
  import opened ExtentMerges
  import opened ExtentCuts
  import opened ExtentChanges

  /** The blocks [a, b) of an extent as an extent of the given state. */
  function Part(e: Extent, a: nat, b: nat, unwritten: bool): Extent
    requires e.first <= a <= b
  {
    Extent(a, EncodeLen(b - a, unwritten), e.start + (a - e.first))
  }

  lemma PartIs(e: Extent, a: nat, b: nat, unwritten: bool)
    requires Good(e) && e.first <= a < b <= End(e) && Encodable(b - a, unwritten)
    ensures var p := Part(e, a, b, unwritten);
            && Good(p) && p.first == a && End(p) == b && Unwritten(p.field) == unwritten
            && forall x :: a <= x < b ==> PlaceOf(p, x) == Place(PlaceOf(e, x).block, !unwritten)
  {
    EncodedLength(b - a, unwritten);
  }

  /** An extent in two at split, each part with its own state; whole when split is its first block. */
  ghost function SplitAs(e: Extent, split: nat, unwritten1: bool, unwritten2: bool): seq<Extent>
    requires e.first <= split < End(e)
  {
    if split == e.first then [Part(e, split, End(e), unwritten2)]
    else [Part(e, e.first, split, unwritten1), Part(e, split, End(e), unwritten2)]
  }

  /** The list with the extent at n in parts. */
  ghost function Spliced(s: seq<Extent>, n: nat, parts: seq<Extent>): seq<Extent>
    requires n < |s|
  {
    s[..n] + parts + s[n + 1..]
  }

  lemma SplitSplices(s: seq<Extent>, n: nat, a: Extent, b: Extent)
    requires n < |s|
    ensures Spliced(s, n, [a, b]) == Inserted(s[n := a], n + 1, b) && Spliced(s, n, [a]) == s[n := a]
  {
    Replaced2(s, n, a, b);
  }

  lemma PartsApart(s: seq<Extent>, n: nat, a: Extent, b: Extent)
    requires Apart(s) && AllGood(s) && n < |s| && Good(a) && Good(b)
    requires a.first == s[n].first && End(a) == b.first && End(b) == End(s[n])
    ensures Apart(s[n := a]) && AllGood(s[n := a]) && Clear(s[n := a], b) && Apart(Inserted(s[n := a], n + 1, b))
  {
    hide Good;
    GoodAt(s, n);
    FirstBefore(s[n], a);
    Shortened(s, n, a, b);
    InsertedBetween(s, n, a, b);
  }

  lemma FirstBefore(e: Extent, a: Extent)
    requires Good(a) && a.first == e.first
    ensures e.first < End(a)
  {}

  lemma InsertedBetween(s: seq<Extent>, n: nat, a: Extent, b: Extent)
    requires Apart(s) && n < |s| && a.first == s[n].first && Good(a) && Good(b) && End(b) == End(s[n])
        && End(a) == b.first
    requires Apart(s[n := a]) && AllGood(s[n := a]) && Clear(s[n := a], b)
    ensures Apart(Inserted(s[n := a], n + 1, b))
  {
    var r := s[n := a];
    assert n + 1 < |r| ==> End(s[n]) <= s[n + 1].first;
    InsertedApart(r, n + 1, b);
  }

  lemma StateApart(s: seq<Extent>, n: nat, a: Extent)
    requires Apart(s) && n < |s| && a.first == s[n].first && End(a) == End(s[n])
    ensures Apart(s[n := a])
  {
    var r := s[n := a];
    forall i, j | 0 <= i < j < |r|
      ensures End(r[i]) <= r[j].first
    {
      assert End(s[i]) <= s[j].first;
    }
  }

  // ----- The conversion -----

  /** The free blocks that a conversion in a tree of the given depth may need: none when only the
      state of the extent changes, else those of one or two insertions. */
  ghost function ConversionNeeds(e: Extent, split: nat, blocks: nat, depth: nat): nat {
    if e.first == split && split + blocks == End(e) then 0
    else if e.first == split || split + blocks == End(e) then depth + 3
    else 2 * depth + 6
  }

  /** The map with the blocks [from, to) written. */
  ghost function WrittenIn(m: map<nat, Place>, from: nat, to: nat): map<nat, Place> {
    map b | b in m :: if from <= b < to then Place(m[b].block, true) else m[b]
  }

  /** An unwritten extent with [from, to) written: up to three extents. */
  ghost function ConvertedOf(e: Extent, from: nat, to: nat): seq<Extent>
    requires e.first <= from < to <= End(e)
  {
    (if e.first < from then [Part(e, e.first, from, true)] else [])
    + [Part(e, from, to, false)]
    + (if to < End(e) then [Part(e, to, End(e), true)] else [])
  }

  ghost function Slice(m: map<nat, Place>, a: nat, b: nat, written: bool): map<nat, Place> {
    map x | x in m && a <= x < b :: Place(m[x].block, written)
  }

  lemma PartRun(e: Extent, a: nat, b: nat, unwritten: bool)
    requires Good(e) && e.first <= a < b <= End(e) && Encodable(b - a, unwritten)
    ensures MapOf([Part(e, a, b, unwritten)]) == Slice(RunOf(e), a, b, !unwritten)
  {
    PartIs(e, a, b, unwritten);
    MapOfOne(Part(e, a, b, unwritten));
  }

  lemma SlicesJoin(m: map<nat, Place>, first: nat, from: nat, to: nat, end: nat)
    requires first <= from < to <= end && forall x :: x in m ==> first <= x < end && !m[x].written
    ensures Slice(m, first, from, false) + Slice(m, from, to, true) + Slice(m, to, end, false) == WrittenIn(m, from, to)
  {}

  lemma WrittenJoin(a: map<nat, Place>, b: map<nat, Place>, from: nat, to: nat)
    ensures WrittenIn(a + b, from, to) == WrittenIn(a, from, to) + WrittenIn(b, from, to)
  {}

  lemma WrittenOutside(a: map<nat, Place>, from: nat, to: nat)
    requires forall x :: x in a ==> !(from <= x < to)
    ensures WrittenIn(a, from, to) == a
  {}

  lemma UnwrittenShort(e: Extent)
    requires Good(e) && Unwritten(e.field)
    ensures Len(e) <= 0x7FFF
  {}

  lemma ConvertedRun(e: Extent, from: nat, to: nat)
    requires Good(e) && Unwritten(e.field) && e.first <= from < to <= End(e)
    ensures MapOf(ConvertedOf(e, from, to)) == WrittenIn(RunOf(e), from, to)
  {
    hide Good, Part, WrittenIn, EncodeLen, MapOf, RunOf, Slice, Unwritten, Encodable;
    UnwrittenShort(e);
    var a := if e.first < from then [Part(e, e.first, from, true)] else [];
    var b := [Part(e, from, to, false)];
    var c := if to < End(e) then [Part(e, to, End(e), true)] else [];
    PieceRun(e, e.first, from, true, a);
    PieceRun(e, from, to, false, b);
    PieceRun(e, to, End(e), true, c);
    MapOfJoin(a + b, c);
    MapOfJoin(a, b);
    RunUnwritten(e);
    SlicesJoin(RunOf(e), e.first, from, to, End(e));
  }

  lemma PieceRun(e: Extent, a: nat, b: nat, unwritten: bool, s: seq<Extent>)
    requires Good(e) && e.first <= a <= b <= End(e) && Len(e) <= 0x7FFF
    requires s == if a < b then [Part(e, a, b, unwritten)] else []
    ensures MapOf(s) == Slice(RunOf(e), a, b, !unwritten)
  {
    hide Good, Part;
    if a < b {
      PartRun(e, a, b, unwritten);
    }
  }

  lemma RunUnwritten(e: Extent)
    requires Unwritten(e.field)
    ensures forall x :: x in RunOf(e) ==> e.first <= x < End(e) && !RunOf(e)[x].written
  {}

  lemma SplicedMap(s: seq<Extent>, n: nat, parts: seq<Extent>)
    requires n < |s|
    ensures MapOf(Spliced(s, n, parts)) == MapOf(s[..n]) + MapOf(parts) + MapOf(s[n + 1..])
  {
    MapOfJoin(s[..n] + parts, s[n + 1..]);
    MapOfJoin(s[..n], parts);
  }

  /** Converting [from, to) of the extent at n changes no physical block and makes exactly those
      blocks written. */
  lemma ConvertedMap(s: seq<Extent>, n: nat, from: nat, to: nat)
    requires Apart(s) && AllGood(s) && n < |s| && Unwritten(s[n].field) && s[n].first <= from < to <= End(s[n])
    ensures MapOf(Spliced(s, n, ConvertedOf(s[n], from, to))) == WrittenIn(MapOf(s), from, to)
  {
    hide ConvertedOf, Good, WrittenIn, RunOf, MapOf, Apart;
    var a, b := MapOf(s[..n]), MapOf(s[n + 1..]);
    GoodAt(s, n);
    ConvertedRun(s[n], from, to);
    SplicedMap(s, n, ConvertedOf(s[n], from, to));
    SplicedMap(s, n, [s[n]]);
    MapOfOne(s[n]);
    assert Spliced(s, n, [s[n]]) == s;
    OutsideExtent(s, n, from, to);
    WrittenOutside(a, from, to);
    WrittenOutside(b, from, to);
    WrittenJoin(a + RunOf(s[n]), b, from, to);
    WrittenJoin(a, RunOf(s[n]), from, to);
  }

  lemma OutsideExtent(s: seq<Extent>, n: nat, from: nat, to: nat)
    requires Apart(s) && n < |s| && s[n].first <= from && to <= End(s[n])
    ensures forall x :: x in MapOf(s[..n]) || x in MapOf(s[n + 1..]) ==> !(from <= x < to)
  {
    forall x | x in MapOf(s[..n]) || x in MapOf(s[n + 1..])
      ensures !(from <= x < to)
    {
      MapOfIff(s[..n], x);
      MapOfIff(s[n + 1..], x);
      assert forall i :: 0 <= i < n ==> s[..n][i] == s[i] && End(s[i]) <= s[n].first;
      var t := s[n + 1..];
      assert forall i :: 0 <= i < |t| ==> t[i] == s[n + 1 + i] && End(s[n]) <= t[i].first;
    }
  }

  // ----- The middle case as written -----

  const WORD := 0x1_0000_0000

  /** ext4_ext_mark_unwritten on a number: the top bit of the 16-bit field is set. */
  function Mark(field: nat): nat { if field < 0x8000 then field + 0x8000 else field }

  /** The extents after the second ext4_ext_split_extent_at of the source, with the path that the first
      one left: it points at entry at, which starts after split. The 32-bit difference wraps. That entry
      gets the wrapped difference, cut to 16 bits, as its length; the new extent gets a start and a length
      computed with the wrapped difference, and ext4_ext_insert_leaf puts it before the entry. */
  ghost function SecondSplitAsWritten(s: seq<Extent>, at: nat, split: nat): seq<Extent>
    requires at < |s| && split < s[at].first < WORD
  {
    var e := s[at];
    var difference := split + WORD - e.first;
    var shortened := e.(field := Mark(difference % 0x1_0000));
    var n := Extent(split, (Len(e) + WORD - difference) % 0x1_0000, (difference + e.start) % PHYSICAL_LIMIT);
    Inserted(s[at := shortened], PutIndex(s[at := shortened], at, n), n)
  }

  /** The extents after both splits of the middle case as written. */
  ghost function MiddleAsWritten(s: seq<Extent>, n: nat, split: nat, blocks: nat): seq<Extent>
    requires n < |s| && s[n].first < split && 0 < blocks && split + blocks < End(s[n]) && End(s[n]) <= WORD
  {
    SecondSplitAsWritten(Spliced(s, n, SplitAs(s[n], split + blocks, true, true)), n + 1, split)
  }

  /** As written, the middle case is wrong on every input: the extents overlap, and a search for the first
      converted block ends at an extent that maps it 2^32 blocks away from where it was. */
  lemma MiddleAsWrittenWrong(s: seq<Extent>, n: nat, split: nat, blocks: nat)
    requires Apart(s) && AllGood(s) && n < |s| && Unwritten(s[n].field)
    requires s[n].first < split && 0 < blocks && split + blocks < End(s[n])
    ensures var r := MiddleAsWritten(s, n, split, blocks);
      && !Apart(r) && n + 1 < |r| && LeafPos(r, n + 1, split) && r[n + 1].first == split < End(r[n + 1])
      && PlaceOf(r[n + 1], split).block == (PlaceOf(s[n], split).block + WORD) % PHYSICAL_LIMIT
      && PlaceOf(r[n + 1], split).block != PlaceOf(s[n], split).block
  {
    hide Apart, AllGood, MapOf;
    var e := s[n];
    GoodAt(s, n);
    UnwrittenShort(e);
    var a, b := Part(e, e.first, split + blocks, true), Part(e, split + blocks, End(e), true);
    PartIs(e, e.first, split + blocks, true);
    PartIs(e, split + blocks, End(e), true);
    var t := Spliced(s, n, [a, b]);
    assert t[n] == a && t[n + 1] == b;
    var r := MiddleAsWritten(s, n, split, blocks);
    SecondSplitIs(t, n + 1, split, blocks);
    assert r[n] == a;
    Overlap(r, n);
  }

  lemma SecondSplitIs(s: seq<Extent>, at: nat, split: nat, blocks: nat)
    requires at < |s| && s[at].first == split + blocks < WORD && Good(s[at]) && 0 < blocks
        && Len(s[at]) + blocks < 0x8000
    requires s[at].start >= blocks
    ensures var r := SecondSplitAsWritten(s, at, split);
      && |r| == |s| + 1 && r[..at] == s[..at] && r[at + 1].first == split + blocks
      && r[at] == Extent(split, Len(s[at]) + blocks, (s[at].start - blocks + WORD) % PHYSICAL_LIMIT)
  {
    var difference := split + WORD - s[at].first;
    assert difference == WORD - blocks;
    assert (Len(s[at]) + WORD - difference) % 0x1_0000 == Len(s[at]) + blocks;
  }

  lemma Overlap(s: seq<Extent>, i: nat)
    requires i + 1 < |s| && End(s[i]) > s[i + 1].first
    ensures !Apart(s)
  {}

  // ----- The splits -----

  lemma SplitParts(s: seq<Extent>, n: nat, split: nat, unwritten1: bool, unwritten2: bool)
    requires Apart(s) && AllGood(s) && n < |s| && Unwritten(s[n].field) && s[n].first <= split < End(s[n])
    ensures var b := Part(s[n], split, End(s[n]), unwritten2);
            && Good(b) && b.first == split && End(b) == End(s[n])
            && (split == s[n].first ==>
                  && Apart(s[n := b])
                  && s[n := b] == Spliced(s, n, SplitAs(s[n], split, unwritten1, unwritten2)))
    ensures split != s[n].first ==>
              var a, b := Part(s[n], s[n].first, split, unwritten1), Part(s[n], split, End(s[n]), unwritten2);
              && Good(a) && a.first == s[n].first && End(a) == split
              && Apart(s[n := a]) && AllGood(s[n := a]) && Clear(s[n := a], b) && Apart(Inserted(s[n := a], n + 1, b))
              && Inserted(s[n := a], n + 1, b) == Spliced(s, n, SplitAs(s[n], split, unwritten1, unwritten2))
  {
    hide Good, Part, Inserted, Clear;
    GoodAt(s, n);
    UnwrittenShort(s[n]);
    PartIs(s[n], split, End(s[n]), unwritten2);
    var b := Part(s[n], split, End(s[n]), unwritten2);
    if split == s[n].first {
      StateApart(s, n, b);
      SplitSplices(s, n, b, b);
    } else {
      PartIs(s[n], s[n].first, split, unwritten1);
      var a := Part(s[n], s[n].first, split, unwritten1);
      PartsApart(s, n, a, b);
      SplitSplices(s, n, a, b);
    }
  }

  /** The splits of the three cases make the converted list. */
  lemma ConvertedSplits(s: seq<Extent>, n: nat, from: nat, to: nat)
    requires Apart(s) && AllGood(s) && n < |s| && Unwritten(s[n].field) && s[n].first <= from < to <= End(s[n])
    ensures to == End(s[n]) ==> SplitAs(s[n], from, true, false) == ConvertedOf(s[n], from, to)
    ensures from == s[n].first && to < End(s[n]) ==> SplitAs(s[n], to, false, true) == ConvertedOf(s[n], from, to)
    ensures from > s[n].first && to < End(s[n]) ==>
              var r := Spliced(s, n, SplitAs(s[n], to, true, true));
              && n < |r| && Unwritten(r[n].field) && r[n].first == s[n].first && End(r[n]) == to
              && Spliced(r, n, SplitAs(r[n], from, true, false)) == Spliced(s, n, ConvertedOf(s[n], from, to))
  {
    var e := s[n];
    GoodAt(s, n);
    UnwrittenShort(e);
    if from > e.first && to < End(e) {
      var a, c := Part(e, e.first, to, true), Part(e, to, End(e), true);
      PartIs(e, e.first, to, true);
      var r := Spliced(s, n, [a, c]);
      assert r[..n] == s[..n] && r[n] == a && r[n + 1..] == [c] + s[n + 1..];
      assert Part(a, e.first, from, true) == Part(e, e.first, from, true)
        && Part(a, from, to, false) == Part(e, from, to, false);
    }
  }

  /** Each of the three ways to split an extent converts the range. */
  lemma ConversionRight(s: seq<Extent>, n: nat, from: nat, to: nat)
    requires Apart(s) && AllGood(s) && n < |s| && Unwritten(s[n].field) && s[n].first <= from < to <= End(s[n])
    ensures var right := WrittenIn(MapOf(s), from, to);
            && MapOf(Spliced(s, n, ConvertedOf(s[n], from, to))) == right
            && (to == End(s[n]) ==> MapOf(Spliced(s, n, SplitAs(s[n], from, true, false))) == right)
            && (from == s[n].first && to < End(s[n]) ==> MapOf(Spliced(s, n, SplitAs(s[n], to, false, true))) == right)
  {
    hide *;
    ConvertedMap(s, n, from, to);
    ConvertedSplits(s, n, from, to);
  }
}
