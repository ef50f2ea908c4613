/** What a list of extents stands for: a map from logical blocks to physical blocks and their state. */
module ExtentMap {
  import opened ExtentFields

  /** Logical block numbers have 32 bits, physical ones 48. */
  const LOGICAL_LIMIT := 0x1_0000_0000
  const EXT_MAX_BLOCKS := 0xFFFF_FFFF
  const PHYSICAL_LIMIT := 0x1_0000_0000_0000

  /** field is the length field as it is stored, state and length in one. */
  datatype Extent = Extent(first: nat, field: nat, start: nat)

  function Len(e: Extent): nat { Length(e.field) }

  function End(e: Extent): nat { e.first + Len(e) }

  ghost predicate Good(e: Extent) {
    && 0 < Len(e) && e.field < 0x1_0000
    && End(e) <= LOGICAL_LIMIT && e.start + Len(e) <= PHYSICAL_LIMIT
  }

  lemma GoodFirst(e: Extent)
    requires Good(e)
    ensures e.first < LOGICAL_LIMIT
  {}

  datatype Place = Place(block: nat, written: bool)

  function PlaceOf(e: Extent, b: nat): Place
    requires e.first <= b
  {
    Place(e.start + (b - e.first), !Unwritten(e.field))
  }

  ghost function RunOf(e: Extent): map<nat, Place> {
    map b | e.first <= b < End(e) :: PlaceOf(e, b)
  }

  ghost function MapOf(s: seq<Extent>): map<nat, Place> {
    if s == [] then map[] else RunOf(s[0]) + MapOf(s[1..])
  }

  /** The extents are in order and share no logical block. */
  ghost predicate Apart(s: seq<Extent>) {
    forall i, j :: 0 <= i < j < |s| ==> End(s[i]) <= s[j].first
  }

  ghost predicate AllGood(s: seq<Extent>) {
    forall i :: 0 <= i < |s| ==> Good(s[i])
  }

  /** The position of the last extent that starts at or before b, the first one when there is none. */
  ghost predicate LeafPos(exts: seq<Extent>, at: int, b: nat) {
    if exts == [] then at == -1 else
      0 <= at < |exts| && (at == 0 || exts[at].first <= b) && (at + 1 < |exts| ==> b < exts[at + 1].first)
  }

  /** The first logical block after position at that is mapped; EXT_MAX_BLOCKS stands for none. */
  ghost function NextFirst(s: seq<Extent>, at: int): nat {
    if 0 <= at && at + 1 < |s| then s[at + 1].first else EXT_MAX_BLOCKS
  }

  lemma GoodAt(s: seq<Extent>, i: nat)
    requires AllGood(s) && i < |s|
    ensures Good(s[i])
  {}

  lemma {:induction false} MapOfIff(s: seq<Extent>, b: nat)
    ensures b in MapOf(s) <==> exists i :: 0 <= i < |s| && s[i].first <= b < End(s[i])
  {
    if s != [] {
      MapOfIff(s[1..], b);
      if i :| 0 <= i < |s| && s[i].first <= b < End(s[i]) {
        assert i > 0 ==> s[1..][i - 1] == s[i];
      }
      if b in MapOf(s[1..]) {
        var i :| 0 <= i < |s[1..]| && s[1..][i].first <= b < End(s[1..][i]);
        assert s[i + 1] == s[1..][i];
      }
    }
  }

  /** In a list of extents that share nothing, the extent around a block says what is mapped there. */
  lemma {:induction false} MapOfAt(s: seq<Extent>, i: nat, b: nat)
    requires Apart(s) && i < |s| && s[i].first <= b < End(s[i])
    ensures b in MapOf(s) && MapOf(s)[b] == PlaceOf(s[i], b)
  {
    if i > 0 {
      assert s[1..][i - 1] == s[i];
      MapOfAt(s[1..], i - 1, b);
    } else {
      MapOfIff(s[1..], b);
      assert forall j :: 0 <= j < |s[1..]| ==> s[1..][j] == s[j + 1];
    }
  }

  /** The extent at the position of b covers b when any does. When it starts at or before b, no
      other extent has a block from b up to the start of the next one. */
  lemma PositionDecides(s: seq<Extent>, at: int, b: nat)
    requires Apart(s) && AllGood(s) && LeafPos(s, at, b)
    ensures b in MapOf(s) <==> at >= 0 && s[at].first <= b < End(s[at])
    ensures b in MapOf(s) ==> MapOf(s)[b] == PlaceOf(s[at], b)
    ensures at >= 0 && s[at].first <= b ==>
              forall x :: b <= x < NextFirst(s, at) && x in MapOf(s) ==>
                x < End(s[at]) && MapOf(s)[x] == PlaceOf(s[at], x)
  {
    hide MapOf, PlaceOf;
    MapOfIff(s, b);
    if at >= 0 && s[at].first <= b < End(s[at]) {
      MapOfAt(s, at, b);
    }
    if at >= 0 && s[at].first <= b {
      assert forall i :: 0 <= i < at ==> End(s[i]) <= s[at].first;
      assert forall i :: at < i < |s| ==> NextFirst(s, at) <= s[i].first;
      forall x | b <= x < NextFirst(s, at) && x in MapOf(s)
        ensures x < End(s[at]) && MapOf(s)[x] == PlaceOf(s[at], x)
      {
        MapOfIff(s, x);
        var i :| 0 <= i < |s| && s[i].first <= x < End(s[i]);
        assert i == at;
        MapOfAt(s, at, x);
      }
    }
  }

  /** For a block in a hole, the answer of ext4_ext_next_allocated_block is the end of the hole exactly
      when the found extent starts before the block: it steps over a first extent that starts later
      (unless that one starts at the very last block, which stands for none). */
  lemma NextFirstRightIff(s: seq<Extent>, at: int, b: nat)
    requires Apart(s) && AllGood(s) && LeafPos(s, at, b) && b !in MapOf(s)
    ensures (forall x :: b <= x < NextFirst(s, at) ==> x !in MapOf(s)) <==>
        at < 0 || s[at].first <= b || s[at].first == EXT_MAX_BLOCKS
  {
    if at >= 0 && s[at].first <= b {
      PositionDecides(s, at, b);
    } else if at >= 0 {
      GoodAt(s, at);
      MapOfAt(s, at, s[at].first);
      assert s[at].first < NextFirst(s, at) || s[at].first == EXT_MAX_BLOCKS;
      MapOfIff(s, b);
      if s[at].first == EXT_MAX_BLOCKS {
        forall x | b <= x < EXT_MAX_BLOCKS ensures x !in MapOf(s) {
          MapOfIff(s, x);
        }
      }
    }
  }

  /** A position in a part of a list whose neighbours keep their distance from b. */
  lemma PositionInside(pre: seq<Extent>, part: seq<Extent>, post: seq<Extent>, at: int, b: nat)
    requires part != [] && LeafPos(part, at, b)
    requires pre != [] ==> part[0].first <= b
    requires post != [] ==> b < post[0].first
    ensures LeafPos(pre + part + post, |pre| + at, b) && (pre + part + post)[|pre| + at] == part[at]
    ensures NextFirst(pre + part + post, |pre| + at) ==
            if at + 1 < |part| then part[at + 1].first else if post != [] then post[0].first else EXT_MAX_BLOCKS
  {
    var s := pre + part + post;
    assert s[|pre| + at] == part[at];
    if at + 1 < |part| {
      assert s[|pre| + at + 1] == part[at + 1];
    } else if post != [] {
      assert s[|pre| + at + 1] == post[0];
    }
  }

  // ----- A new extent -----

  /** n shares no block with the extents of s. */
  ghost predicate Clear(s: seq<Extent>, n: Extent) {
    forall i :: 0 <= i < |s| ==> End(s[i]) <= n.first || End(n) <= s[i].first
  }

  ghost function Inserted(s: seq<Extent>, k: nat, n: Extent): seq<Extent>
    requires k <= |s|
  {
    s[..k] + [n] + s[k..]
  }

  lemma InsertedAt(s: seq<Extent>, k: nat, n: Extent)
    requires k <= |s|
    ensures var r := Inserted(s, k, n);
            && |r| == |s| + 1 && r[k] == n
            && (forall i :: 0 <= i < k ==> r[i] == s[i]) && (forall i :: k < i < |r| ==> r[i] == s[i - 1])
  {}

  lemma ClearSides(s: seq<Extent>, k: nat, n: Extent)
    requires Apart(s) && AllGood(s) && Good(n) && Clear(s, n) && k <= |s|
    requires (k > 0 ==> s[k - 1].first < n.first) && (k < |s| ==> n.first < s[k].first)
    ensures forall i :: 0 <= i < k ==> End(s[i]) <= n.first
    ensures forall i :: k <= i < |s| ==> End(n) <= s[i].first
  {
    if k > 0 {
      forall i | 0 <= i < k
        ensures End(s[i]) <= n.first
      {
        assert i < k - 1 ==> End(s[i]) <= s[k - 1].first;
      }
    }
    if k < |s| {
      forall i | k <= i < |s|
        ensures End(n) <= s[i].first
      {
        assert i > k ==> End(s[k]) <= s[i].first;
      }
    }
  }

  lemma InsertedApart(s: seq<Extent>, k: nat, n: Extent)
    requires Apart(s) && AllGood(s) && Good(n) && Clear(s, n) && k <= |s|
    requires (k > 0 ==> s[k - 1].first < n.first) && (k < |s| ==> n.first < s[k].first)
    ensures Apart(Inserted(s, k, n))
  {
    var r := Inserted(s, k, n);
    InsertedAt(s, k, n);
    ClearSides(s, k, n);
    forall i, j | 0 <= i < j < |r|
      ensures End(r[i]) <= r[j].first
    {
      if i == k {
        assert r[j] == s[j - 1];
      } else if j == k {
        assert r[i] == s[i];
      } else {
        assert r[i] == s[if i < k then i else i - 1] && r[j] == s[if j < k then j else j - 1];
      }
    }
  }

  lemma MapAssoc<A, B>(a: map<A, B>, b: map<A, B>, c: map<A, B>)
    ensures (a + b) + c == a + (b + c)
  {}

  lemma MapCommute<A, B>(a: map<A, B>, b: map<A, B>, c: map<A, B>)
    requires b.Keys !! c.Keys
    ensures a + b + c == a + c + b
  {}

  lemma {:induction false} MapOfJoin(a: seq<Extent>, b: seq<Extent>)
    ensures MapOf(a + b) == MapOf(a) + MapOf(b)
  {
    if a == [] {
      assert a + b == b;
    } else {
      assert (a + b)[1..] == a[1..] + b;
      MapOfJoin(a[1..], b);
      MapAssoc(RunOf(a[0]), MapOf(a[1..]), MapOf(b));
    }
  }

  lemma MapOfOne(e: Extent)
    ensures MapOf([e]) == RunOf(e)
  {
    assert MapOf([e]) == RunOf(e) + MapOf([e][1..]);
  }

  /** A new extent adds its own run to the map and changes nothing else. */
  lemma MapInserted(s: seq<Extent>, k: nat, n: Extent)
    requires Clear(s, n) && k <= |s|
    ensures MapOf(Inserted(s, k, n)) == MapOf(s) + RunOf(n)
  {
    var a, b := s[..k], s[k..];
    assert s == a + b;
    MapOfJoin(a, b);
    MapOfJoin(a + [n], b);
    MapOfJoin(a, [n]);
    MapOfOne(n);
    ClearRun(b, n);
    MapCommute(MapOf(a), RunOf(n), MapOf(b));
  }

  lemma ClearRun(s: seq<Extent>, n: Extent)
    requires Clear(s, n)
    ensures RunOf(n).Keys !! MapOf(s).Keys
  {
    forall x | x in RunOf(n)
      ensures x !in MapOf(s)
    {
      MapOfIff(s, x);
    }
  }

  // ----- Merging neighbours -----

  predicate CanAppend(e: Extent, n: Extent) {
    && e.start + Len(e) == n.start
    && Len(e) + Len(n) <= (if Unwritten(e.field) then 0x7FFF else 0x8000)
    && End(e) == n.first
  }

  predicate CanPrepend(e: Extent, n: Extent) {
    && n.start + Len(n) == e.start
    && Len(e) + Len(n) <= (if Unwritten(e.field) then 0x7FFF else 0x8000)
    && End(n) == e.first
  }

  /** n becomes the tail of e, in the state of e. */
  function Appended(e: Extent, n: Extent): Extent {
    e.(field := EncodeLen(Len(e) + Len(n), Unwritten(e.field)))
  }

  /** n becomes the head of e, in the state of e; as in the source, the physical start stays. */
  function Prepended(e: Extent, n: Extent): Extent {
    e.(first := n.first, field := EncodeLen(Len(e) + Len(n), Unwritten(e.field)))
  }

  datatype Option<T> = None | Some(value: T)

  /** Whether the extent at position at starts at block b. */
  predicate StartsAt(s: seq<Extent>, at: int, b: nat) { 0 <= at < |s| && s[at].first == b }

  /** What the extent at position at becomes when it can merge with n. */
  function MergedAt(s: seq<Extent>, at: int, n: Extent): Option<Extent> {
    if 0 <= at < |s| then Merged(s[at], n) else None
  }

  function Merged(e: Extent, n: Extent): Option<Extent> {
    if CanAppend(e, n) then Some(Appended(e, n)) else if CanPrepend(e, n) then Some(Prepended(e, n)) else None
  }
}
