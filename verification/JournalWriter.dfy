/** Journal blocks as a writer lays them out, byte by byte, and what recovery makes of them.

    Nothing here shares a reader with recovery: the layouts are those of the structures in
    ext4fsd/include/jbd2/jbd2_fs.h, with all fields big-endian, and the places of the blocks of a log
    are counted around the log area.
  */
module JournalWriter {
  import opened JournalFormat
  import opened JournalLog
  import opened JournalHistory
  import opened JournalRecovery

  // ----- Fields -----

  function Wide16(n: nat): Bytes
    requires n < 0x1_0000
  {
    [n / 0x100, n % 0x100]
  }

  function Wide32(n: nat): Bytes
    requires n < 0x1_0000_0000
  {
    [n / 0x100_0000, n / 0x1_0000 % 0x100, n / 0x100 % 0x100, n % 0x100]
  }

  /** The bytes at a place of a block. */
  ghost predicate Holds(b: Bytes, off: nat, bytes: Bytes) {
    off + |bytes| <= |b| && b[off..off + |bytes|] == bytes
  }

  lemma HoldsJoin(b: Bytes, off: nat, x: Bytes, y: Bytes)
    ensures Holds(b, off, x + y) <==> Holds(b, off, x) && Holds(b, off + |x|, y)
  {
    if off + |x| + |y| <= |b| {
      var w := b[off..off + |x| + |y|];
      assert w[..|x|] == b[off..off + |x|] && w[|x|..] == b[off + |x|..off + |x| + |y|];
      assert (x + y)[..|x|] == x && (x + y)[|x|..] == y;
      assert w == w[..|x|] + w[|x|..];
    }
  }

  lemma Read16(b: Bytes, off: nat, n: nat)
    requires n < 0x1_0000 && Holds(b, off, Wide16(n))
    ensures off + 2 <= |b| && Be16(b, off) == n
  {
    var w := b[off..off + 2];
    assert w[0] == b[off] && w[1] == b[off + 1];
  }

  lemma Read32(b: Bytes, off: nat, n: nat)
    requires n < 0x1_0000_0000 && Holds(b, off, Wide32(n))
    ensures off + 4 <= |b| && Be32(b, off) == n
  {
    hide Be16, Holds, Wide32, Wide16;
    var hi, lo := n / 0x1_0000, n % 0x1_0000;
    HalfWords(n);
    HoldsJoin(b, off, Wide16(hi), Wide16(lo));
    Read16(b, off, hi);
    Read16(b, off + 2, lo);
  }

  lemma HalfWords(n: nat)
    requires n < 0x1_0000_0000
    ensures Wide32(n) == Wide16(n / 0x1_0000) + Wide16(n % 0x1_0000) && |Wide16(n / 0x1_0000)| == 2
  {
    Quotients(n, n / 0x1_0000, n % 0x1_0000);
  }

  lemma Quotients(n: nat, hi: nat, lo: nat)
    requires n == hi * 0x1_0000 + lo && lo < 0x1_0000
    ensures n / 0x100_0000 == hi / 0x100 && n / 0x1_0000 % 0x100 == hi % 0x100
    ensures n / 0x100 % 0x100 == lo / 0x100 && n % 0x100 == lo % 0x100
  {
    assert n / 0x1_0000 == hi;
    assert n / 0x100 == hi * 0x100 + lo / 0x100;
  }

  lemma Read64(b: Bytes, off: nat, n: nat)
    requires n < 0x1_0000_0000_0000_0000
    requires Holds(b, off, Wide32(n / 0x1_0000_0000) + Wide32(n % 0x1_0000_0000))
    ensures off + 8 <= |b| && Be64(b, off) == n
  {
    var hi, lo := n / 0x1_0000_0000, n % 0x1_0000_0000;
    HoldsJoin(b, off, Wide32(hi), Wide32(lo));
    Read32(b, off, hi);
    Read32(b, off + 4, lo);
  }

  // ----- Descriptor blocks -----

  /** One data block named by a descriptor block; sum is its checksum, and uuid is written when it differs
      from that of the block before. */
  datatype Item = Item(block: Block, escaped: bool, sameUuid: bool, sum: Tid, uuid: Bytes)

  ghost predicate Writable(j: Journal, it: Item) {
    |it.uuid| == 16 && (!j.bit64 ==> it.block < 0x1_0000_0000)
  }

  /** The flag bits: 1 for an escaped block, 2 for the same UUID, 8 for the last tag. */
  function FlagsOf(it: Item, last: bool): nat {
    (if it.escaped then 1 else 0) + (if it.sameUuid then 2 else 0) + (if last then 8 else 0)
  }

  /** struct journal_block_tag3_s with checksums of version 3, else struct journal_block_tag_s, cut before
      its high word without the 64-bit feature and two bytes longer with checksums of version 2. The
      UUID follows exactly when the flag for the same one is clear. */
  function TagBytes(j: Journal, it: Item, last: bool): Bytes {
    var low, high := it.block % 0x1_0000_0000, it.block / 0x1_0000_0000;
    (if j.csum3 then Wide32(low) + Wide32(FlagsOf(it, last)) + Wide32(high) + Wide32(it.sum)
     else Wide32(low) + Wide16(it.sum % 0x1_0000) + Wide16(FlagsOf(it, last))
          + (if j.bit64 then Wide32(high) else []) + (if j.csum2 then [0, 0] else []))
    + (if it.sameUuid then [] else it.uuid)
  }

  /** Only the last tag can carry the flag for it. */
  function TagsBytes(j: Journal, items: seq<Item>, marked: bool): Bytes {
    if items == [] then []
    else TagBytes(j, items[0], marked && |items| == 1) + TagsBytes(j, items[1..], marked)
  }

  /** The bytes of the smallest tag. */
  function Smallest(j: Journal): nat { |TagBytes(j, Item(0, false, true, 0, []), false)| }

  /** The tags end where the last one is marked, or where no tag fits before the room for a checksum. */
  ghost predicate TagsEndAt(j: Journal, end: nat, marked: bool) {
    var room := j.blocksize - if j.csum2 || j.csum3 then 4 else 0;
    end <= room && (marked || room < end + Smallest(j))
  }

  /** The common header: the magic number, the type of the block and the transaction number. */
  ghost predicate HeaderWritten(b: Bytes, kind: nat, tid: Tid)
    requires kind < 0x100
  {
    Holds(b, 0, [0xC0, 0x3B, 0x39, 0x98] + [0, 0, 0, kind] + Wide32(tid))
  }

  /** A descriptor block: the tags behind the header, before the room for a checksum. */
  ghost predicate DescriptorWritten(j: Journal, b: Bytes, tid: Tid, items: seq<Item>, marked: bool) {
    && |b| == j.blocksize && items != [] && (forall i :: 0 <= i < |items| ==> Writable(j, items[i]))
    && HeaderWritten(b, 1, tid) && Holds(b, 12, TagsBytes(j, items, marked))
    && TagsEndAt(j, 12 + |TagsBytes(j, items, marked)|, marked)
  }

  lemma HeaderRead(b: Bytes, kind: nat, tid: Tid)
    requires kind < 0x100 && HeaderWritten(b, kind, tid)
    ensures |b| >= 12 && Magic(b) == MAGIC && BlockType(b) == kind && Sequence(b) == tid
  {
    HoldsJoin(b, 0, [0xC0, 0x3B, 0x39, 0x98] + [0, 0, 0, kind], Wide32(tid));
    HoldsJoin(b, 0, [0xC0, 0x3B, 0x39, 0x98], [0, 0, 0, kind]);
    assert Wide32(0xC03B_3998) == [0xC0, 0x3B, 0x39, 0x98] && Wide32(kind) == [0, 0, 0, kind];
    Read32(b, 0, 0xC03B_3998);
    Read32(b, 4, kind);
    Read32(b, 8, tid);
  }

  lemma FlagsRead(it: Item, last: bool)
    ensures FlagsOf(it, last) < 0x10
    ensures Flag(FlagsOf(it, last), FLAG_ESCAPE) == it.escaped && Flag(FlagsOf(it, last), FLAG_SAME_UUID) == it.sameUuid
    ensures Flag(FlagsOf(it, last), FLAG_LAST_TAG) == last
  {}

  /** A tag is read as it was written, and takes the bytes it was given. */
  lemma TagRead(j: Journal, b: Bytes, off: nat, it: Item, last: bool)
    requires Writable(j, it) && Holds(b, off, TagBytes(j, it, last))
    ensures off + j.MinTagSize() <= |b| && j.MinTagSize() <= |TagBytes(j, it, last)|
    ensures var t := TagAt(j, b, off);
      && TagBlock(t) == it.block && t.Escaped() == it.escaped && t.SameUuid() == it.sameUuid && t.IsLast() == last
      && TagSize(j, t) == |TagBytes(j, it, last)|
  {
    hide Be16, Be32, Holds, Wide16, Wide32, FlagsOf, Flag;
    var low, high, flags := it.block % 0x1_0000_0000, it.block / 0x1_0000_0000, FlagsOf(it, last);
    FlagsRead(it, last);
    WideSizes(low, high, it.sum, flags);
    var uuid := if it.sameUuid then [] else it.uuid;
    if j.csum3 {
      var a, c, d := Wide32(low) + Wide32(flags) + Wide32(high), Wide32(it.sum), uuid;
      assert TagBytes(j, it, last) == (a + c) + d;
      HoldsJoin(b, off, a + c, d);
      HoldsJoin(b, off, a, c);
      HoldsJoin(b, off, Wide32(low) + Wide32(flags), Wide32(high));
      HoldsJoin(b, off, Wide32(low), Wide32(flags));
      Inside(b, off, a + c);
      Read32(b, off, low);
      Read32(b, off + 4, flags);
      Read32(b, off + 8, high);
    } else {
      var a := Wide32(low) + Wide16(it.sum % 0x1_0000) + Wide16(flags);
      var h, z := if j.bit64 then Wide32(high) else [], if j.csum2 then [0, 0] else [];
      assert TagBytes(j, it, last) == ((a + h) + z) + uuid;
      HoldsJoin(b, off, (a + h) + z, uuid);
      Inside(b, off, (a + h) + z);
      HoldsJoin(b, off, a + h, z);
      HoldsJoin(b, off, a, h);
      HoldsJoin(b, off, Wide32(low) + Wide16(it.sum % 0x1_0000), Wide16(flags));
      HoldsJoin(b, off, Wide32(low), Wide16(it.sum % 0x1_0000));
      Read32(b, off, low);
      Read16(b, off + 6, flags);
      if j.bit64 {
        Read32(b, off + 8, high);
      }
    }
  }

  lemma WideSizes(low: nat, high: nat, sum: nat, flags: nat)
    requires low < 0x1_0000_0000 && high < 0x1_0000_0000 && sum < 0x1_0000_0000 && flags < 0x10
    ensures |Wide32(low)| == |Wide32(high)| == |Wide32(sum)| == |Wide32(flags)| == 4
    ensures |Wide16(flags)| == 2 && |Wide16(sum % 0x1_0000)| == 2
  {}

  lemma Inside(b: Bytes, off: nat, bytes: Bytes)
    requires Holds(b, off, bytes)
    ensures off + |bytes| <= |b|
  {}

  /** The tags of a written list: as many as items, with their blocks and flags. */
  ghost predicate SameTags(tags: seq<Tag>, items: seq<Item>, marked: bool) {
    && |tags| == |items|
    && forall i :: 0 <= i < |tags| ==>
         && TagBlock(tags[i]) == items[i].block && tags[i].Escaped() == items[i].escaped
         && tags[i].SameUuid() == items[i].sameUuid && tags[i].IsLast() == (marked && i == |items| - 1)
  }

  lemma SmallestIs(j: Journal)
    ensures Smallest(j) == j.MinTagSize()
  {}

  lemma {:induction false} TagsRead(j: Journal, b: Bytes, off: nat, items: seq<Item>, marked: bool)
    requires j.blocksize >= 4 && |b| == j.blocksize && (items != [] || !marked)
    requires forall i :: 0 <= i < |items| ==> Writable(j, items[i])
    requires Holds(b, off, TagsBytes(j, items, marked)) && TagsEndAt(j, off + |TagsBytes(j, items, marked)|, marked)
    ensures SameTags(Tags(j, b, off), items, marked)
    decreases |items|
  {
    hide TagAt, TagBlock, TagSize, TagBytes, Holds, Tag.IsLast, Tag.Escaped, Tag.SameUuid, Journal.MinTagSize, Writable;
    hide Smallest;
    SmallestIs(j);
    if items != [] {
      var it, rest := items[0], items[1..];
      var last := marked && |items| == 1;
      var bytes := TagBytes(j, it, last);
      HoldsJoin(b, off, bytes, TagsBytes(j, rest, marked));
      TagRead(j, b, off, it, last);
      if last {
        assert Tags(j, b, off) == [TagAt(j, b, off)];
      } else {
        assert forall i :: 0 <= i < |rest| ==> rest[i] == items[i + 1];
        TagsRead(j, b, off + |bytes|, rest, marked);
      }
    }
  }

  /** Reading a descriptor block gives the block numbers and flags that were written into it. */
  lemma DescriptorRead(j: Journal, b: Bytes, tid: Tid, items: seq<Item>, marked: bool)
    requires j.Mounted() && DescriptorWritten(j, b, tid, items, marked)
    ensures |b| >= 12 && Magic(b) == MAGIC && BlockType(b) == DESCRIPTOR && Sequence(b) == tid
    ensures SameTags(Tags(j, b, 12), items, marked)
  {
    hide TagsBytes, HeaderWritten, Holds, SameTags, TagsEndAt;
    HeaderRead(b, 1, tid);
    TagsRead(j, b, 12, items, marked);
  }

  // ----- Revoke blocks -----

  function EntryBytes(j: Journal, block: Block): Bytes
    requires !j.bit64 ==> block < 0x1_0000_0000
  {
    (if j.bit64 then Wide32(block / 0x1_0000_0000) else []) + Wide32(block % 0x1_0000_0000)
  }

  function EntriesBytes(j: Journal, blocks: seq<Block>): Bytes
    requires !j.bit64 ==> forall i :: 0 <= i < |blocks| ==> blocks[i] < 0x1_0000_0000
  {
    if blocks == [] then [] else EntryBytes(j, blocks[0]) + EntriesBytes(j, blocks[1..])
  }

  /** A revoke block: behind the header the number of bytes in use, and the block numbers, of four bytes
      each or of eight with the 64-bit feature. */
  ghost predicate RevokeWritten(j: Journal, b: Bytes, tid: Tid, blocks: seq<Block>) {
    && |b| == j.blocksize && (!j.bit64 ==> forall i :: 0 <= i < |blocks| ==> blocks[i] < 0x1_0000_0000)
    && HeaderWritten(b, 5, tid)
    && var used := 16 + (if j.bit64 then 8 else 4) * |blocks|;
       && used + (if j.csum2 || j.csum3 then 4 else 0) <= j.blocksize < 0x1_0000_0000
       && Holds(b, 12, Wide32(used)) && Holds(b, 16, EntriesBytes(j, blocks))
  }

  lemma EntryRead(j: Journal, b: Bytes, off: nat, block: Block)
    requires (!j.bit64 ==> block < 0x1_0000_0000) && Holds(b, off, EntryBytes(j, block))
    ensures |EntryBytes(j, block)| == EntrySize(j) && off + EntrySize(j) <= |b| && EntryAt(j, b, off) == block
  {
    if j.bit64 {
      Read64(b, off, block);
    } else {
      assert [] + Wide32(block % 0x1_0000_0000) == Wide32(block);
      Read32(b, off, block);
    }
  }

  lemma {:induction false} EntriesRead(j: Journal, b: Bytes, off: nat, end: nat, blocks: seq<Block>)
    requires !j.bit64 ==> forall i :: 0 <= i < |blocks| ==> blocks[i] < 0x1_0000_0000
    requires Holds(b, off, EntriesBytes(j, blocks)) && end == off + EntrySize(j) * |blocks| <= |b|
    ensures Entries(j, b, off, end) == blocks
    decreases |blocks|
  {
    hide EntryBytes, EntryAt, Holds;
    if blocks != [] {
      var rest := blocks[1..];
      assert forall i :: 0 <= i < |rest| ==> rest[i] == blocks[i + 1];
      HoldsJoin(b, off, EntryBytes(j, blocks[0]), EntriesBytes(j, rest));
      EntryRead(j, b, off, blocks[0]);
      EntriesRead(j, b, off + EntrySize(j), end, rest);
      assert Entries(j, b, off, end) == [blocks[0]] + rest;
    }
  }

  /** Reading a revoke block gives the blocks that were written into it. */
  lemma RevokeRead(j: Journal, b: Bytes, tid: Tid, blocks: seq<Block>)
    requires j.Mounted() && RevokeWritten(j, b, tid, blocks)
    ensures |b| >= 16 && Magic(b) == MAGIC && BlockType(b) == REVOKE && Sequence(b) == tid
    ensures RevokedBlocks(j, b) == blocks
  {
    hide EntriesBytes, HeaderWritten, Holds, Be32;
    var used := 16 + (if j.bit64 then 8 else 4) * |blocks|;
    HeaderRead(b, 5, tid);
    Read32(b, 12, used);
    EntriesRead(j, b, 16, used, blocks);
  }

  /** A revoke block whose byte count reaches into the room for the checksum, or beyond the block, revokes
      nothing. */
  lemma RevokeCorrupt(j: Journal, b: Bytes, used: nat)
    requires j.Mounted() && |b| == j.blocksize && used < 0x1_0000_0000 && Holds(b, 12, Wide32(used))
    ensures used + (if j.csum2 || j.csum3 then 4 else 0) > j.blocksize ==> RevokedBlocks(j, b) == []
  {
    hide Holds, Be32;
    Read32(b, 12, used);
  }

  // ----- A whole log -----

  /** One metadata block of a log, with the data blocks behind it. */
  datatype Unit = Descr(items: seq<Item>, marked: bool) | Revokes(blocks: seq<Block>) | Committing

  function Size(u: Unit): nat { if u.Descr? then 1 + |u.items| else 1 }

  /** The blocks of the first n units. */
  function Offset(units: seq<Unit>, n: nat): nat
    requires n <= |units|
  {
    if n == 0 then 0 else Offset(units, n - 1) + Size(units[n - 1])
  }

  /** The transactions committed by the first n units. */
  function Txn(units: seq<Unit>, n: nat): (t: nat)
    requires n <= |units|
    ensures t <= n
  {
    if n == 0 then 0 else Txn(units, n - 1) + if units[n - 1].Committing? then 1 else 0
  }

  /** Block number o of a log: the last block of the log area is followed by its first. */
  function Around(j: Journal, o: nat): nat {
    if o == 0 then j.start
    else if Around(j, o - 1) == j.last then j.first
    else Around(j, o - 1) + 1
  }

  ghost predicate UnitWritten(j: Journal, b: Bytes, tid: Tid, u: Unit) {
    match u
    case Descr(items, marked) => DescriptorWritten(j, b, tid, items, marked)
    case Revokes(blocks) => RevokeWritten(j, b, tid, blocks)
    case Committing => |b| == j.blocksize && HeaderWritten(b, 2, tid)
  }

  /** Unit n lies at its place, with its transaction number and right checksums, and fits the log area. */
  ghost predicate UnitAt(j: Journal, units: seq<Unit>, n: nat)
    requires n < |units|
  {
    var p := Around(j, Offset(units, n));
    && Size(units[n]) <= j.last - j.first + 1
    && UnitWritten(j, Data(j, p), (j.sequence + Txn(units, n)) % 0x1_0000_0000, units[n])
    && j.verifies(Data(j, p)) && (units[n].Descr? ==> j.dataVerifies(p, Data(j, p)))
  }

  /** The log holds the units, one behind the other around the log area, with consecutive transaction
      numbers; and what is behind them does not begin with the magic number. */
  ghost predicate LogWritten(j: Journal, units: seq<Unit>) {
    && j.Mounted() && (forall n: nat :: n < |units| ==> UnitAt(j, units, n))
    && !Holds(Data(j, Around(j, Offset(units, |units|))), 0, [0xC0, 0x3B, 0x39, 0x98])
  }

  /** What a unit at block number o says: the data block behind a descriptor that belongs to each item,
      with the magic number put back when it is escaped; or the revoked blocks. */
  ghost function UnitSaid(j: Journal, o: nat, t: nat, u: Unit): seq<Record> {
    match u
    case Descr(items, _) =>
      seq(|items|, i requires 0 <= i < |items| =>
        var data := Data(j, Around(j, o + 1 + i));
        Write(t, items[i].block,
              if items[i].escaped && |data| >= 4 then [0xC0, 0x3B, 0x39, 0x98] + data[4..] else data))
    case Revokes(blocks) => seq(|blocks|, i requires 0 <= i < |blocks| => Revoke(t, blocks[i]))
    case Committing => []
  }

  /** What the first n units say. */
  ghost function Said(j: Journal, units: seq<Unit>, n: nat): seq<Record>
    requires n <= |units|
  {
    if n == 0 then []
    else Said(j, units, n - 1) + UnitSaid(j, Offset(units, n - 1), Txn(units, n - 1), units[n - 1])
  }

  lemma {:induction false} AroundInside(j: Journal, o: nat)
    requires j.Mounted()
    ensures Around(j, o) <= j.last
  {
    if o > 0 {
      AroundInside(j, o - 1);
    }
  }

  lemma {:induction false} AroundStep(j: Journal, o: nat, k: nat)
    requires j.Mounted() && k <= j.last - j.first + 1
    ensures j.Wrap(Around(j, o) + k) == Around(j, o + k) <= j.last
    decreases k
  {
    AroundInside(j, o);
    if k > 0 {
      AroundStep(j, o, k - 1);
    }
  }

  /** Along a written log the walk goes from unit to unit. */
  lemma {:induction false} WrittenWalk(j: Journal, units: seq<Unit>, n: nat)
    requires LogWritten(j, units) && n <= |units|
    ensures At(j, n) == Place(Around(j, Offset(units, n)), TidOf(j.sequence + Txn(units, n)))
    ensures Commits(j, n) == Txn(units, n)
    ensures Runs(j, Scanning, n)
    decreases n
  {
    hide LogWritten, GoesOn, After, CommitsAt, TidOf, Around, UnitAt, Journal.Mounted;
    WrittenMounted(j, units);
    if n == 0 {
      StartFacts(j);
    } else {
      WrittenWalk(j, units, n - 1);
      WrittenUnit(j, units, n - 1);
      NextTid(j.sequence + Txn(units, n - 1));
      assert At(j, n) == Next(j, At(j, n - 1));
    }
  }

  lemma WrittenMounted(j: Journal, units: seq<Unit>)
    requires LogWritten(j, units)
    ensures j.Mounted() && forall n: nat :: n < |units| ==> UnitAt(j, units, n)
    ensures Around(j, 0) == j.start
  {
    hide UnitAt, Offset, Journal.Mounted;
  }

  /** One unit as the walk meets it. */
  lemma WrittenUnit(j: Journal, units: seq<Unit>, n: nat)
    requires j.Mounted() && n < |units| && UnitAt(j, units, n)
    ensures var p, u := Around(j, Offset(units, n)), units[n];
      && p < |j.log| && GoesOn(j, Scanning, Place(p, TidOf(j.sequence + Txn(units, n))))
      && After(j, p) == Around(j, Offset(units, n + 1)) && (CommitsAt(j, p) <==> u.Committing?)
  {
    hide DescriptorWritten, RevokeWritten, HeaderWritten, Tags, Be32, Around, Holds, SameTags, Txn, TidOf;
    var o, u := Offset(units, n), units[n];
    PlaceInside(j, o, Size(u));
    TidsAgree(j.sequence + Txn(units, n));
    UnitRead(j, Around(j, o), TidOf(j.sequence + Txn(units, n)), u);
  }

  lemma PlaceInside(j: Journal, o: nat, k: nat)
    requires j.Mounted() && k <= j.last - j.first + 1
    ensures Around(j, o) < |j.log| && |j.log[Around(j, o)]| == j.blocksize
    ensures j.Wrap(Around(j, o) + k) == Around(j, o + k)
  {
    hide Around;
    AroundInside(j, o);
    AroundStep(j, o, k);
  }

  /** The header of a unit, and the tags or blocks in it. */
  lemma UnitRead(j: Journal, p: nat, tid: Tid, u: Unit)
    requires j.Mounted() && p < |j.log| && UnitWritten(j, j.log[p], tid, u)
    ensures var b := j.log[p];
      && |b| >= 16 && Magic(b) == MAGIC && Sequence(b) == tid
      && BlockType(b) == (if u.Descr? then DESCRIPTOR else if u.Revokes? then REVOKE else COMMIT)
      && (u.Descr? ==> SameTags(TagsOf(j, p), u.items, u.marked) && |TagsOf(j, p)| == |u.items|)
      && (u.Revokes? ==> RevokedBlocks(j, b) == u.blocks)
  {
    hide DescriptorWritten, RevokeWritten, HeaderWritten, Tags, Be32, Holds, SameTags, RevokedBlocks;
    var b := j.log[p];
    match u {
      case Descr(items, marked) =>
        DescriptorRead(j, b, tid, items, marked);
        TagsCount(Tags(j, b, 12), items, marked);
      case Revokes(blocks) => RevokeRead(j, b, tid, blocks);
      case Committing => HeaderRead(b, 2, tid);
    }
  }

  lemma TidsAgree(n: nat)
    ensures TidOf(n) == n % 0x1_0000_0000
  {}

  lemma TagsCount(tags: seq<Tag>, items: seq<Item>, marked: bool)
    requires SameTags(tags, items, marked)
    ensures |tags| == |items|
  {}

  /** The history that recovery reads in a written log is what the units say. */
  lemma {:induction false} WrittenHistory(j: Journal, units: seq<Unit>, n: nat)
    requires LogWritten(j, units) && n <= |units|
    ensures j.Mounted() && History(j, n) == Said(j, units, n)
    decreases n
  {
    hide LogWritten, Around, RecordsAt, UnitAt, Txn, Offset, Journal.Mounted, UnitSaid, At, Commits, GoesOn;
    WrittenMounted(j, units);
    if n > 0 {
      WrittenHistory(j, units, n - 1);
      WrittenWalk(j, units, n - 1);
      WrittenRecords(j, units, n - 1);
    }
  }

  lemma WrittenRecords(j: Journal, units: seq<Unit>, n: nat)
    requires j.Mounted() && n < |units| && UnitAt(j, units, n)
    ensures var o, t := Offset(units, n), Txn(units, n);
      RecordsAt(j, Around(j, o), t) == UnitSaid(j, o, t, units[n])
  {
    hide DescriptorWritten, RevokeWritten, HeaderWritten, TagsOf, Be32, Around, Holds, TagBlock, Tag.Escaped, SameTags;
    hide RevokedBlocks, Txn, Offset, BlockType, Restored, DescrRecords;
    var o, u, t := Offset(units, n), units[n], Txn(units, n);
    PlaceInside(j, o, Size(u));
    TidsAgree(j.sequence + t);
    UnitRead(j, Around(j, o), TidOf(j.sequence + t), u);
    if u.Descr? {
      DescrSaid(j, o, t, u);
    }
  }

  lemma DescrSaid(j: Journal, o: nat, t: nat, u: Unit)
    requires j.Mounted() && u.Descr? && |u.items| <= j.last - j.first
    requires Around(j, o) < |j.log| && SameTags(TagsOf(j, Around(j, o)), u.items, u.marked)
    ensures DescrRecords(j, Around(j, o), t) == UnitSaid(j, o, t, u)
  {
    hide TagsOf, TagBlock, Tag.Escaped, Around, Data;
    forall i: nat | i < |u.items| ensures DataPlace(j, Around(j, o), i) == Around(j, o + 1 + i) {
      AroundStep(j, o, 1 + i);
    }
  }

  // ----- Recovery of a written log -----

  /** The scan of a written log ends behind its units, and well. */
  lemma WrittenScan(j: Journal, units: seq<Unit>)
    requires LogWritten(j, units)
    ensures j.Mounted() && Ends(j, Scanning, |units|) && Commits(j, |units|) == Txn(units, |units|)
    ensures StopStatus(j, Scanning, At(j, |units|)).Success? && !Returns(j, Scanning)
  {
    hide LogWritten, GoesOn, Returns, Around, UnitAt, TidOf, At, Txn, Journal.Mounted, StopStatus;
    WrittenMounted(j, units);
    WrittenWalk(j, units, |units|);
    WrittenEnd(j, units, At(j, |units|));
    PassEndsIff(j, Scanning);
    assert Ends(j, Scanning, |units|);
  }

  lemma WrittenEnd(j: Journal, units: seq<Unit>, s: Place)
    requires LogWritten(j, units) && s.block == Around(j, Offset(units, |units|))
    ensures j.Mounted() && !GoesOn(j, Scanning, s) && StopStatus(j, Scanning, s).Success?
  {
    hide UnitAt, Offset, Around, Be32;
    AroundInside(j, Offset(units, |units|));
    var b := j.log[s.block];
    if Magic(b) == MAGIC {
      MagicBytes(b);
    }
  }

  /** Only the four bytes of the magic number are read as the magic number. */
  lemma MagicBytes(b: Bytes)
    requires |b| >= 12 && Be32(b, 0) == MAGIC
    ensures Holds(b, 0, [0xC0, 0x3B, 0x39, 0x98])
  {
    var hi: nat, lo: nat := Be16(b, 0), Be16(b, 2);
    assert hi == 0xC03B && lo == 0x3998;
  }

  /** The units up to the last commit block. */
  function Kept(units: seq<Unit>, n: nat): (k: nat)
    requires n <= |units|
    ensures k <= n
  {
    if n == 0 then 0 else if units[n - 1].Committing? then n else Kept(units, n - 1)
  }

  lemma {:induction false} WrittenCommitted(j: Journal, units: seq<Unit>, n: nat)
    requires LogWritten(j, units) && n <= |units|
    ensures j.Mounted() && Committed(j, n) == Kept(units, n)
  {
    hide LogWritten, GoesOn, Around, UnitAt, CommitsAt, TidOf, At, Txn, Journal.Mounted;
    WrittenMounted(j, units);
    if n > 0 {
      WrittenCommitted(j, units, n - 1);
      WrittenWalk(j, units, n - 1);
      WrittenUnit(j, units, n - 1);
    }
  }

  /** Recovery of a written log: every block of the client file holds what the committed units say it
      should, whatever the client file held before. */
  method RecoverWritten(handle: Handle, ghost units: seq<Unit>) returns (status: Status)
    requires LogWritten(handle.journal, units) && Txn(units, |units|) <= 0x8000_0000
    requires handle.Shows(null) && handle.revoked == map[]
    modifies handle, handle.revokeTable, handle.revokeTable.nodes
    ensures status.Success?
    ensures RecoveredTo(Said(handle.journal, units, Kept(units, |units|)), old(handle.client), handle.client)
  {
    hide *;
    ghost var j := handle.journal;
    WrittenScan(j, units);
    forall n: nat | Ends(j, Scanning, n) ensures Commits(j, n) <= 0x8000_0000 {
      EndsOnce(j, Scanning, |units|, n);
    }
    ghost var m;
    status, m := handle.ReplayJournal();
    EndsOnce(j, Scanning, |units|, m);
    WrittenCommitted(j, units, |units|);
    WrittenHistory(j, units, Kept(units, |units|));
    FullFacts(j, m);
  }

  /** A descriptor block without revokes, as recovery reads it. */
  lemma ItemsSaid(j: Journal, p: nat, tid: Tid, o: nat, txn: nat, items: seq<Item>, marked: bool)
    requires j.Mounted() && p == Around(j, o) && DescriptorWritten(j, Data(j, p), tid, items, marked)
    requires |items| <= j.last - j.first
    requires txn < 0x8000_0000 && tid == (j.sequence + txn) % 0x1_0000_0000
    ensures var full := UnitSaid(j, o, txn, Descr(items, marked));
      && p < |j.log| && full == DescrRecords(j, p, txn) && Chronological(full)
      && TableFor(map[], full, j.sequence) && Recent(full) && tid == TidOf(j.sequence + txn)
  {
    hide DescriptorWritten, Tags, Around, SameTags, Data, DescrRecords, LatestRevoke, Be32;
    PlaceInside(j, o, 1);
    InFile(j, p);
    DescriptorRead(j, Data(j, p), tid, items, marked);
    DescrSaid(j, o, txn, Descr(items, marked));
    var full := UnitSaid(j, o, txn, Descr(items, marked));
    forall b: Block ensures LatestRevoke(full, b) == -1 {
      NoRevokes(full, b);
    }
  }

  lemma InFile(j: Journal, p: nat)
    requires p < |j.log|
    ensures Data(j, p) == j.log[p]
  {}

  lemma {:induction false} NoRevokes(h: seq<Record>, b: Block)
    requires forall i :: 0 <= i < |h| ==> h[i].Write?
    ensures LatestRevoke(h, b) == -1
    decreases |h|
  {
    if h != [] {
      NoRevokes(h[..|h| - 1], b);
    }
  }

  /** All data blocks of a descriptor block that fits the log area are in the log file. */
  lemma ItemsInside(j: Journal, o: nat, txn: nat, items: seq<Item>, marked: bool)
    requires j.Mounted() && |items| <= j.last - j.first
    ensures |UnitSaid(j, o, txn, Descr(items, marked))| == |items|
    ensures forall k: nat :: k < |items| ==> DataPlace(j, Around(j, o), k) < |j.log|
  {
    hide Around;
    forall k: nat | k < |items| ensures DataPlace(j, Around(j, o), k) < |j.log| {
      AroundStep(j, o, 1 + k);
    }
  }

  /** Replay of one written descriptor block when nothing is revoked: each block it names gets its data,
      the last one when it is named more than once, and no other block changes. */
  method ReplayWritten(handle: Handle, p: nat, tid: Tid, ghost o: nat, ghost txn: nat, ghost items: seq<Item>,
      ghost marked: bool)
    returns (status: Status)
    requires handle.journal.Mounted() && p == Around(handle.journal, o)
    requires DescriptorWritten(handle.journal, Data(handle.journal, p), tid, items, marked)
    requires |items| <= handle.journal.last - handle.journal.first
    requires txn < 0x8000_0000 && tid == (handle.journal.sequence + txn) % 0x1_0000_0000
    requires handle.Shows(null) && handle.revoked == map[]
    modifies handle`client, handle`freed, handle.revokeTable, handle.revokeTable.nodes
    ensures status.Success?
    ensures RecoveredTo(UnitSaid(handle.journal, o, txn, Descr(items, marked)), old(handle.client), handle.client)
  {
    hide *;
    ghost var j := handle.journal;
    ghost var full := UnitSaid(j, o, txn, Descr(items, marked));
    ghost var k;
    ItemsSaid(j, p, tid, o, txn, items, marked);
    status, k := handle.ReplayDescrBlock(tid, p, full, txn);
    ItemsInside(j, o, txn, items, marked);
    assert full[..k] == full;
    AppliedRecovers(old(handle.client), full);
  }
}
