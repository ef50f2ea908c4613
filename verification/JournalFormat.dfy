/** The on-disk format of the journal as ext4fsd/jbd2/jbd2.c reads it: big-endian fields, block
    tags, revoke entries, the circular log area and transaction numbers.

    A block is a sequence of bytes. Checksums are two predicates on blocks, since the check of a
    checksum decides only whether a block is accepted.
  */
module JournalFormat {
  import RedBlackShape

  type Byte = b: nat | b < 256
  type Bytes = seq<Byte>
  type Block = RedBlackShape.Block
  type Tid = RedBlackShape.Tid

  const TID_LIMIT := 0x1_0000_0000
  const MAGIC := 0xC03B_3998
  const UUID_SIZE := 16

  const DESCRIPTOR := 1
  const COMMIT := 2
  const REVOKE := 5

  const FLAG_ESCAPE := 1
  const FLAG_SAME_UUID := 2
  const FLAG_LAST_TAG := 8

  // ----- Transaction numbers -----

  function TidOf(n: nat): Tid { n % TID_LIMIT }

  /** jbd2_tid_cmp: the sign of the difference read as a signed 32-bit number. */
  function TidCmp(a: Tid, b: Tid): int {
    var d := (a - b) % TID_LIMIT;
    if d == 0 then 0 else if d < 0x8000_0000 then 1 else -1
  }

  /** The comparison of section 3.2 of RFC 1982 gives the order of the unwrapped numbers exactly
      when they are within half of the number space. */
  lemma SerialOrder(a: nat, b: nat)
    requires -TID_LIMIT < a - b < TID_LIMIT
    ensures TidCmp(TidOf(a), TidOf(b)) == (if a < b then -1 else if a == b then 0 else 1) <==>
        -0x8000_0000 <= a - b < 0x8000_0000
  {
    var d := (TidOf(a) - TidOf(b)) % TID_LIMIT;
    assert d == (a - b) % TID_LIMIT by {
      ModDifference(a, b);
    }
    if a >= b {
      assert d == a - b;
    } else {
      assert d == a - b + TID_LIMIT;
    }
  }

  lemma ModDifference(a: nat, b: nat)
    ensures (a % TID_LIMIT - b % TID_LIMIT) % TID_LIMIT == (a - b) % TID_LIMIT
  {
    var q := a / TID_LIMIT - b / TID_LIMIT;
    assert a - b == a % TID_LIMIT - b % TID_LIMIT + q * TID_LIMIT;
    assert (a % TID_LIMIT - b % TID_LIMIT + q * TID_LIMIT) % TID_LIMIT == (a % TID_LIMIT - b % TID_LIMIT) % TID_LIMIT;
  }

  // ----- Fields -----

  function Be16(b: Bytes, off: nat): nat
    requires off + 2 <= |b|
  {
    var hi: nat, lo: nat := b[off], b[off + 1];
    hi * 0x100 + lo
  }

  function Be32(b: Bytes, off: nat): (r: Tid)
    requires off + 4 <= |b|
  {
    Be16(b, off) * 0x1_0000 + Be16(b, off + 2)
  }

  function Be64(b: Bytes, off: nat): (r: Block)
    requires off + 8 <= |b|
  {
    Be32(b, off) * 0x1_0000_0000 + Be32(b, off + 4)
  }

  function Flag(flags: nat, bit: nat): bool
    requires bit > 0
  {
    (flags / bit) % 2 == 1
  }

  /** The immutable part of a journal handle: geometry, superblock fields and the log file. */
  datatype Journal = Journal(
    blocksize: nat, first: nat, last: nat, start: nat, sequence: Tid,
    csum2: bool, csum3: bool, bit64: bool,
    log: seq<Bytes>, verifies: Bytes -> bool, dataVerifies: (nat, Bytes) -> bool)
  {
    /** The log file has s_maxlen blocks, s_first and s_start are among them, and block numbers do not
        overflow 32 bits when the blocks of one descriptor are added. The log may start before its
        area: a journal that was closed cleanly starts at block 0. */
    predicate Mounted() {
      && blocksize >= 1024 && first <= last && start <= last && |log| == last + 1 && last + blocksize < 0x1_0000_0000
      && forall k :: 0 <= k < |log| ==> |log[k]| == blocksize
    }

    predicate Csum2or3() { csum2 || csum3 }

    /** jbd2_wrap */
    function Wrap(v: nat): nat
      requires first <= last
    {
      if v > last then v - (last - first + 1) else v
    }

    /** jbd2_min_tag_size */
    function MinTagSize(): nat {
      if csum3 then 16 else (if bit64 then 12 else 8) + (if csum2 then 2 else 0)
    }

    /** The bytes of a descriptor block that can hold tags. */
    function TagLimit(): nat
      requires blocksize >= 4
    {
      if Csum2or3() then blocksize - 4 else blocksize
    }
  }

  // ----- Block tags -----

  datatype Tag = Tag(low: nat, high: nat, flags: nat) {
    predicate Escaped() { Flag(flags, FLAG_ESCAPE) }
    predicate SameUuid() { Flag(flags, FLAG_SAME_UUID) }
    predicate IsLast() { Flag(flags, FLAG_LAST_TAG) }
  }

  function TagAt(j: Journal, b: Bytes, off: nat): (t: Tag)
    requires off + j.MinTagSize() <= |b|
    ensures t.low < 0x1_0000_0000 && t.high < 0x1_0000_0000
  {
    Tag(Be32(b, off), if j.bit64 then Be32(b, off + 8) else 0, if j.csum3 then Be32(b, off + 4) else Be16(b, off + 6))
  }

  /** jbd2_tag_blocknr with the high half in its place. */
  function TagBlock(t: Tag): Block {
    if t.low < 0x1_0000_0000 && t.high < 0x1_0000_0000 then t.high * 0x1_0000_0000 + t.low else 0
  }

  /** jbd2_tag_size */
  function TagSize(j: Journal, t: Tag): (n: nat) {
    j.MinTagSize() + if t.SameUuid() then 0 else UUID_SIZE
  }

  /** The tags in use from an offset on: up to a tag marked last, or to the end of the room. */
  function Tags(j: Journal, b: Bytes, off: nat): seq<Tag>
    requires j.TagLimit.requires() && j.TagLimit() <= |b|
    decreases j.TagLimit() - off
  {
    if off + j.MinTagSize() > j.TagLimit() then []
    else
      var t := TagAt(j, b, off);
      if t.IsLast() then [t] else [t] + Tags(j, b, off + TagSize(j, t))
  }

  /** Only the final tag can be marked last, and there are no more tags than bytes. */
  lemma {:induction false} TagsFit(j: Journal, b: Bytes, off: nat)
    requires j.TagLimit.requires() && j.TagLimit() <= |b|
    ensures Tags(j, b, off) != [] ==> off + |Tags(j, b, off)| <= j.TagLimit()
    ensures forall i :: 0 <= i < |Tags(j, b, off)| - 1 ==> !Tags(j, b, off)[i].IsLast()
    decreases j.TagLimit() - off
  {
    if off + j.MinTagSize() <= j.TagLimit() {
      var t := TagAt(j, b, off);
      if !t.IsLast() {
        TagsFit(j, b, off + TagSize(j, t));
      }
    }
  }

  /** The end of the tags. */
  function TagsEnd(j: Journal, b: Bytes, off: nat): nat
    requires j.TagLimit.requires() && j.TagLimit() <= |b|
    decreases j.TagLimit() - off
  {
    if off + j.MinTagSize() > j.TagLimit() then off
    else
      var t := TagAt(j, b, off);
      if t.IsLast() then off + TagSize(j, t) else TagsEnd(j, b, off + TagSize(j, t))
  }

  // ----- Deviations in reading tags -----

  /** jbd2_count_tags as written leaves the loop before it counts the last tag. */
  function CountAsWritten(j: Journal, b: Bytes, off: nat): nat
    requires j.TagLimit.requires() && j.TagLimit() <= |b|
    decreases j.TagLimit() - off
  {
    if off + j.MinTagSize() > j.TagLimit() then 0
    else
      var t := TagAt(j, b, off);
      if t.IsLast() then 0 else 1 + CountAsWritten(j, b, off + TagSize(j, t))
  }

  /** The count as written is right exactly when no tag is marked last; otherwise it is one short. */
  lemma {:induction false} CountAsWrittenIff(j: Journal, b: Bytes, off: nat)
    requires j.TagLimit.requires() && j.TagLimit() <= |b|
    ensures var tags := Tags(j, b, off);
      && CountAsWritten(j, b, off) == |tags| - (if tags != [] && tags[|tags| - 1].IsLast() then 1 else 0)
      && (CountAsWritten(j, b, off) == |tags| <==> forall t :: t in tags ==> !t.IsLast())
    decreases j.TagLimit() - off
  {
    TagsFit(j, b, off);
    if off + j.MinTagSize() <= j.TagLimit() {
      var t := TagAt(j, b, off);
      if !t.IsLast() {
        CountAsWrittenIff(j, b, off + TagSize(j, t));
        var rest := Tags(j, b, off + TagSize(j, t));
        assert Tags(j, b, off) == [t] + rest;
        if rest != [] {
          assert ([t] + rest)[|rest|] == rest[|rest| - 1];
        }
      }
    }
  }

  /** The tags that jbd2_replay_descr_block as written goes through: a tag whose block is skipped
      does not end the loop even when it is marked last. */
  function VisitedAsWritten(j: Journal, b: Bytes, off: nat, skipped: set<Block>): seq<Tag>
    requires j.TagLimit.requires() && j.TagLimit() <= |b|
    decreases j.TagLimit() - off
  {
    if off + j.MinTagSize() > j.TagLimit() then []
    else
      var t := TagAt(j, b, off);
      if TagBlock(t) !in skipped && t.IsLast() then [t] else [t] + VisitedAsWritten(j, b, off + TagSize(j, t), skipped)
  }

  /** Replay as written goes through the tags in use and no more exactly when the last one is not
      skipped, or there is no room for another tag behind it. */
  lemma {:induction false} VisitedAsWrittenIff(j: Journal, b: Bytes, off: nat, skipped: set<Block>)
    requires j.TagLimit.requires() && j.TagLimit() <= |b|
    ensures var tags := Tags(j, b, off);
      VisitedAsWritten(j, b, off, skipped) == tags
      <==> (tags != [] && tags[|tags| - 1].IsLast() && TagBlock(tags[|tags| - 1]) in skipped
            ==> TagsEnd(j, b, off) + j.MinTagSize() > j.TagLimit())
    decreases j.TagLimit() - off
  {
    hide TagAt, TagBlock, Tag.IsLast, Be32, Be16, Tag.SameUuid;
    if off + j.MinTagSize() <= j.TagLimit() {
      var t := TagAt(j, b, off);
      var next := off + TagSize(j, t);
      if t.IsLast() {
        assert Tags(j, b, off) == [t];
        if TagBlock(t) in skipped {
          var more := VisitedAsWritten(j, b, next, skipped);
          assert VisitedAsWritten(j, b, off, skipped) == [t] + more;
          assert more == [] <==> next + j.MinTagSize() > j.TagLimit();
          assert |[t] + more| == 1 + |more|;
        }
      } else {
        VisitedAsWrittenIff(j, b, next, skipped);
        var rest := Tags(j, b, next);
        var visited := VisitedAsWritten(j, b, next, skipped);
        assert Tags(j, b, off) == [t] + rest && VisitedAsWritten(j, b, off, skipped) == [t] + visited;
        SameTail(t, rest, visited);
        if rest == [] {
          assert TagsEnd(j, b, off) == next;
        }
      }
    }
  }

  lemma SameTail(t: Tag, a: seq<Tag>, b: seq<Tag>)
    ensures [t] + a == [t] + b <==> a == b
    ensures a != [] ==> ([t] + a)[|[t] + a| - 1] == a[|a| - 1]
  {
    assert ([t] + a)[1..] == a && ([t] + b)[1..] == b;
  }

  /** Bitwise or of naturals. */
  function Or(a: nat, b: nat): nat {
    if a == 0 && b == 0 then 0 else 2 * Or(a / 2, b / 2) + if a % 2 == 1 || b % 2 == 1 then 1 else 0
  }

  lemma {:induction false} OrBounds(a: nat, b: nat)
    ensures Or(a, b) <= a + b && (b == 0 ==> Or(a, b) == a)
  {
    if a > 0 || b > 0 {
      OrBounds(a / 2, b / 2);
    }
  }

  /** jbd2_tag_blocknr as written combines the halves without a shift: right exactly when the high
      half is zero. */
  lemma TagBlockAsWrittenIff(t: Tag)
    requires t.low < 0x1_0000_0000 && t.high < 0x1_0000_0000
    ensures Or(t.low, t.high) == TagBlock(t) <==> t.high == 0
  {
    OrBounds(t.low, t.high);
  }

  // ----- Data blocks -----

  /** A logged block without its escape: the first four bytes are the magic number again. */
  function Restored(data: Bytes, escaped: bool): Bytes {
    if escaped && |data| >= 4 then [0xC0, 0x3B, 0x39, 0x98] + data[4..] else data
  }

  lemma RestoredMagic(data: Bytes)
    requires |data| >= 4
    ensures Be32(Restored(data, true), 0) == MAGIC && |Restored(data, true)| == |data|
        && Restored(data, true)[4..] == data[4..]
  {}

  // ----- Revoke entries -----

  function EntrySize(j: Journal): nat { if j.bit64 then 8 else 4 }

  function EntryAt(j: Journal, b: Bytes, off: nat): Block
    requires off + EntrySize(j) <= |b|
  {
    if j.bit64 then Be64(b, off) else Be32(b, off)
  }

  /** The entries between two offsets. */
  function Entries(j: Journal, b: Bytes, off: nat, end: nat): seq<Block>
    requires end <= |b|
    decreases end - off
  {
    if off + EntrySize(j) > end then [] else [EntryAt(j, b, off)] + Entries(j, b, off + EntrySize(j), end)
  }

  predicate RevokeSane(j: Journal, b: Bytes)
    requires |b| == j.blocksize >= 16
  {
    Be32(b, 12) <= j.TagLimit()
  }

  /** The blocks a revoke block revokes; none when its byte count is corrupt. */
  function RevokedBlocks(j: Journal, b: Bytes): seq<Block>
    requires |b| == j.blocksize >= 16
  {
    if RevokeSane(j, b) then Entries(j, b, 16, Be32(b, 12)) else []
  }

  ghost function ToSet(s: seq<Block>): set<Block> { set b | b in s }

  lemma ToSetOf(b: Block, s: seq<Block>)
    ensures ToSet([b] + s) == {b} + ToSet(s)
  {
    assert forall x :: x in [b] + s <==> x == b || x in s;
  }

  /** The scan as written starts behind the common header, at the byte count. With 32-bit entries it
      also revokes the block whose number is the byte count: the right blocks are revoked exactly when
      there is no room for an entry there, or that block is one of them. */
  lemma EntriesAsWrittenIff(j: Journal, b: Bytes)
    requires |b| == j.blocksize >= 16 && RevokeSane(j, b) && !j.bit64
    ensures var count := Be32(b, 12);
      && Entries(j, b, 12, count) == (if count < 16 then [] else [count] + RevokedBlocks(j, b))
      && (ToSet(Entries(j, b, 12, count)) == ToSet(RevokedBlocks(j, b)) <==> count < 16 || count in RevokedBlocks(j, b))
  {
    var count := Be32(b, 12);
    if count >= 16 {
      ToSetOf(count, RevokedBlocks(j, b));
    }
  }

  /** The word at an offset. */
  function Word(b: Bytes, off: nat): nat { if off + 4 <= |b| then Be32(b, off) else 0 }

  /** What 64-bit entries become when they are read four bytes too early, with word before in front of
      the first: each takes its high half from the entry before. When four more bytes fit, the low half
      of the last entry and the word after it make one more. */
  ghost function Shifted(before: nat, entries: seq<Block>, more: bool, after: nat): seq<nat>
    decreases |entries|
  {
    if entries == [] then if more then [before * TID_LIMIT + after] else []
    else [before * TID_LIMIT + entries[0] / TID_LIMIT] + Shifted(entries[0] % TID_LIMIT, entries[1..], more, after)
  }

  lemma {:induction false} ShiftedIs(j: Journal, b: Bytes, off: nat, end: nat)
    requires j.bit64 && end <= |b| && off + 4 <= |b|
    ensures var entries := Entries(j, b, off + 4, end);
      Entries(j, b, off, end) ==
        Shifted(Be32(b, off), entries, off + 8 + 8 * |entries| <= end, Word(b, off + 4 + 8 * |entries|))
    decreases |b| - off
  {
    if off + 12 <= end {
      var entries, rest := Entries(j, b, off + 4, end), Entries(j, b, off + 12, end);
      assert entries == [Be64(b, off + 4)] + rest;
      assert entries[1..] == rest;
      HalvesOf(b, off + 4);
      ShiftedIs(j, b, off + 8, end);
      assert Entries(j, b, off, end) == [Be64(b, off)] + Entries(j, b, off + 8, end);
    } else if off + 8 <= end {
      assert Entries(j, b, off + 4, end) == [];
      assert Entries(j, b, off + 8, end) == [];
    }
  }

  lemma HalvesOf(b: Bytes, off: nat)
    requires off + 8 <= |b|
    ensures Be64(b, off) / TID_LIMIT == Be32(b, off) && Be64(b, off) % TID_LIMIT == Be32(b, off + 4)
  {
    var hi: nat, lo: nat := Be32(b, off), Be32(b, off + 4);
    assert Be64(b, off) == hi * TID_LIMIT + lo;
  }

  /** With 64-bit entries the scan as written revokes the shifted entries, the first of which has the
      byte count as its high half. With a count from 20 to 23 that is always wrong; and when no revoked
      block has the byte count as the high half of its number, it is right exactly when nothing is read. */
  lemma Entries64AsWrittenIff(j: Journal, b: Bytes)
    requires |b| == j.blocksize >= 24 && RevokeSane(j, b) && j.bit64
    ensures var count, entries := Be32(b, 12), RevokedBlocks(j, b);
      var read := Entries(j, b, 12, count);
      && read == Shifted(count, entries, 20 + 8 * |entries| <= count, Word(b, 16 + 8 * |entries|))
      && (read == [] <==> count < 20)
      && (count < 20 ==> entries == [])
      && (20 <= count < 24 ==> ToSet(read) != ToSet(entries))
      && ((forall e :: e in entries ==> e / TID_LIMIT != count) ==> (ToSet(read) == ToSet(entries) <==> count < 20))
  {
    var count, entries := Be32(b, 12), RevokedBlocks(j, b);
    var read := Entries(j, b, 12, count);
    ShiftedIs(j, b, 12, count);
    if count >= 20 {
      assert read[0] == Be64(b, 12);
      HalvesOf(b, 12);
      assert read[0] in ToSet(read);
      if count < 24 {
        assert entries == [];
      }
      if forall e :: e in entries ==> e / TID_LIMIT != count {
        assert read[0] !in entries;
      }
    } else {
      assert read == [] && entries == [];
    }
  }

  /** Read too early, a list of 64-bit entries stays the list it is exactly when every word in it is the
      one in front of it, and no more bytes are read. */
  lemma {:induction false} ShiftedSameIff(before: nat, entries: seq<Block>, more: bool, after: nat)
    requires before < TID_LIMIT
    ensures Shifted(before, entries, more, after) == entries
            <==> !more && forall e :: e in entries ==> e == before * TID_LIMIT + before
    decreases |entries|
  {
    if entries != [] {
      var rest := entries[1..];
      var e := entries[0];
      var low := e % TID_LIMIT;
      ShiftedSameIff(low, rest, more, after);
      var s := Shifted(before, entries, more, after);
      assert s[0] == before * TID_LIMIT + e / TID_LIMIT && s[1..] == Shifted(low, rest, more, after);
      HalfSame(before, e);
      assert entries == [e] + rest && s == [s[0]] + s[1..];
      if !more && forall x :: x in entries ==> x == before * TID_LIMIT + before {
        assert e in entries && forall x :: x in rest ==> x in entries;
        assert s == entries;
      }
    }
  }

  lemma HalfSame(before: nat, e: Block)
    requires before < TID_LIMIT
    ensures before * TID_LIMIT + e / TID_LIMIT == e <==> e == before * TID_LIMIT + before
    ensures e == before * TID_LIMIT + before ==> e % TID_LIMIT == before
  {
    var hi, lo := e / TID_LIMIT, e % TID_LIMIT;
    assert e == hi * TID_LIMIT + lo;
    if before * TID_LIMIT + hi == e {
      assert (before - hi) * TID_LIMIT == lo - hi;
      assert before == hi;
    }
  }
}
