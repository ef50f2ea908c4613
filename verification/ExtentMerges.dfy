/** What merging a new extent with a neighbour does to the map of a file. */
module ExtentMerges {
  import opened ExtentFields
  import opened ExtentMap

  lemma EncodedLength(len: nat, unwritten: bool)
    requires Encodable(len, unwritten)
    ensures Length(EncodeLen(len, unwritten)) == len && EncodeLen(len, unwritten) < 0x1_0000
    ensures len > 0 ==> Unwritten(EncodeLen(len, unwritten)) == unwritten
  {}

  /** An extent that took over its successor is one extent of the joint length in the old state. */
  lemma AppendedIs(e: Extent, n: Extent)
    requires Good(e) && Good(n) && CanAppend(e, n)
    ensures var a := Appended(e, n);
            && Good(a) && a.first == e.first && End(a) == End(n) && Len(a) == Len(e) + Len(n)
            && Unwritten(a.field) == Unwritten(e.field) && a.start == e.start
            && Encodable(Len(a), Unwritten(a.field))
  {
    EncodedLength(Len(e) + Len(n), Unwritten(e.field));
  }

  lemma PrependedIs(e: Extent, n: Extent)
    requires Good(e) && Good(n) && CanPrepend(e, n)
    ensures var p := Prepended(e, n);
            p.first == n.first && End(p) == End(e) && Unwritten(p.field) == Unwritten(e.field) && p.start == e.start
  {
    EncodedLength(Len(e) + Len(n), Unwritten(e.field));
  }

  lemma Replace(s: seq<Extent>, i: nat, e: Extent)
    requires i < |s|
    ensures MapOf(s[i := e]) == MapOf(s[..i]) + RunOf(e) + MapOf(s[i + 1..])
  {
    var a, b := s[..i], s[i + 1..];
    assert s[i := e] == a + [e] + b;
    MapOfJoin(a + [e], b);
    MapOfJoin(a, [e]);
    MapOfOne(e);
  }

  /** Appending keeps the extents apart. */
  lemma AppendedApart(s: seq<Extent>, i: nat, n: Extent)
    requires Apart(s) && AllGood(s) && Good(n) && i < |s| && CanAppend(s[i], n) && Clear(s, n)
    ensures Apart(s[i := Appended(s[i], n)]) && AllGood(s[i := Appended(s[i], n)])
  {
    AppendedIs(s[i], n);
    var r := s[i := Appended(s[i], n)];
    forall j, k | 0 <= j < k < |r|
      ensures End(r[j]) <= r[k].first
    {
      assert End(s[j]) <= s[k].first;
    }
  }

  /** The map after a merge at position i, on one block. */
  lemma MapAfter(s: seq<Extent>, i: nat, e: Extent, b: nat)
    requires i < |s| && Apart(s[i := e]) && e.first <= b < End(e)
    ensures b in MapOf(s[i := e]) && MapOf(s[i := e])[b] == PlaceOf(e, b)
  {
    MapOfAt(s[i := e], i, b);
  }

  /** The code does not compare the states of the two extents: appending adds the new run to the map
      exactly when they agree. */
  lemma AppendRightIff(s: seq<Extent>, i: nat, n: Extent)
    requires Apart(s) && AllGood(s) && Good(n) && i < |s| && CanAppend(s[i], n) && Clear(s, n)
    ensures MapOf(s[i := Appended(s[i], n)]) == MapOf(s) + RunOf(n) <==> Unwritten(s[i].field) == Unwritten(n.field)
  {
    var e, a := s[i], Appended(s[i], n);
    AppendedIs(e, n);
    AppendedApart(s, i, n);
    if Unwritten(e.field) == Unwritten(n.field) {
      assert RunOf(a) == RunOf(e) + RunOf(n);
      var p, q := MapOf(s[..i]), MapOf(s[i + 1..]);
      Replace(s, i, a);
      Replace(s, i, e);
      assert s[i := e] == s;
      ClearPart(s, i + 1, n);
      ClearRun(s[i + 1..], n);
      MapAssoc(p, RunOf(e), RunOf(n));
      MapCommute(p + RunOf(e), RunOf(n), q);
    } else {
      MapAfter(s, i, a, n.first);
    }
  }

  lemma ClearPart(s: seq<Extent>, i: nat, n: Extent)
    requires Clear(s, n) && i <= |s|
    ensures Clear(s[i..], n)
  {
    assert forall j :: 0 <= j < |s[i..]| ==> s[i..][j] == s[i + j];
  }

  /** The code keeps the old physical start when it prepends, so a prepended run is always mapped wrongly. */
  lemma PrependNeverRight(s: seq<Extent>, i: nat, n: Extent)
    requires Apart(s) && AllGood(s) && Good(n) && i < |s| && CanPrepend(s[i], n) && Clear(s, n)
    ensures MapOf(s[i := Prepended(s[i], n)]) != MapOf(s) + RunOf(n)
  {
    var p, r := Prepended(s[i], n), s[i := Prepended(s[i], n)];
    PrependedIs(s[i], n);
    assert forall j :: 0 <= j < i ==> End(s[j]) <= s[i].first && (End(s[j]) <= n.first || End(n) <= s[j].first);
    forall j, k | 0 <= j < k < |r|
      ensures End(r[j]) <= r[k].first
    {
      assert End(s[j]) <= s[k].first;
    }
    MapAfter(s, i, p, n.first);
    assert n.first in RunOf(n) && RunOf(n)[n.first] == PlaceOf(n, n.first);
  }

  /** One written block. */
  function Single(b: nat, start: nat): Extent { Extent(b, 1, start) }

  lemma SingleRun(b: nat, start: nat)
    requires b < LOGICAL_LIMIT && start < PHYSICAL_LIMIT
    ensures Good(Single(b, start)) && !Unwritten(Single(b, start).field)
        && RunOf(Single(b, start)) == map[b := Place(start, true)]
  {
    var m := RunOf(Single(b, start));
    assert Len(Single(b, start)) == 1 && PlaceOf(Single(b, start), b) == Place(start, true);
    assert b in m && m[b] == PlaceOf(Single(b, start), b);
    assert forall x :: x in m <==> x == b;
  }

  lemma SingleClear(s: seq<Extent>, b: nat, start: nat)
    requires b !in MapOf(s)
    ensures Clear(s, Single(b, start))
  {
    MapOfIff(s, b);
  }

  /** The map after a block is added the way the source does it, next to the extent at position at. */
  lemma AddedMap(s: seq<Extent>, at: int, n: Extent, r: seq<Extent>)
    requires Apart(s) && AllGood(s) && Good(n) && Clear(s, n) && MergedAt(s, at, n).Some?
        && r == s[at := MergedAt(s, at, n).value]
    ensures MapOf(r) == MapOf(s) + RunOf(n) <==> CanAppend(s[at], n) && Unwritten(s[at].field) == Unwritten(n.field)
  {
    if CanAppend(s[at], n) {
      AppendRightIff(s, at, n);
    } else {
      PrependNeverRight(s, at, n);
    }
  }

  lemma NotThere(s: seq<Extent>, b: nat)
    requires AllGood(s) && b !in MapOf(s)
    ensures forall at :: !StartsAt(s, at, b)
  {
    MapOfIff(s, b);
    forall at
      ensures !StartsAt(s, at, b)
    {
      if 0 <= at < |s| {
        GoodAt(s, at);
      }
    }
  }
}
