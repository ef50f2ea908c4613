/** Journal recovery, ext4fsd/jbd2/jbd2.c: the revoke table, and the three passes over the log.

    The table is the red-black tree of module RedBlackTree. The ghost map revoked is what it
    stands for. The log and the client file are arrays of blocks.
  */
module JournalRecovery {
  import opened JournalFormat
  import opened JournalLog
  import opened JournalHistory
  import Shape = RedBlackShape
  import RedBlackHeap
  import RedBlackTree

  datatype RecoveryInfo = RecoveryInfo(startTxn: Tid, endTxn: Tid, hasTxn: bool)

  datatype Phase = Scan | ScanRevoke | Replay

  /** The table gives, for each block that h revokes, the number of the latest transaction. */
  ghost predicate TableFor(revoked: map<Block, Tid>, h: seq<Record>, sequence: Tid) {
    forall b: Block ::
      && (b in revoked <==> LatestRevoke(h, b) >= 0)
      && (b in revoked ==> revoked[b] == TidOf(sequence + LatestRevoke(h, b)))
  }

  lemma TableForNothing(sequence: Tid)
    ensures TableFor(map[], [], sequence)
  {}

  lemma TableForMore(revoked: map<Block, Tid>, h: seq<Record>, sequence: Tid, txn: nat, block: Block)
    requires TableFor(revoked, h, sequence)
    ensures TableFor(revoked[block := TidOf(sequence + txn)], h + [Revoke(txn, block)], sequence)
  {
    hide LatestRevoke;
    forall b: Block ensures LatestRevoke(h + [Revoke(txn, block)], b) == if block == b then txn
      else LatestRevoke(h, b) {
      LatestOfMore(h, Revoke(txn, block), b);
    }
  }

  lemma TableForSame(revoked: map<Block, Tid>, h: seq<Record>, sequence: Tid, more: seq<Record>)
    requires TableFor(revoked, h, sequence) && forall r :: r in more ==> r.Write?
    ensures TableFor(revoked, h + more, sequence)
    decreases |more|
  {
    hide LatestRevoke, TableFor;
    if more == [] {
      assert h + more == h;
    } else {
      var rest, r := more[..|more| - 1], more[|more| - 1];
      TableForSame(revoked, h, sequence, rest);
      assert h + more == (h + rest) + [r];
      TableForWrite(revoked, h + rest, sequence, r);
    }
  }

  lemma TableForWrite(revoked: map<Block, Tid>, h: seq<Record>, sequence: Tid, r: Record)
    requires TableFor(revoked, h, sequence) && r.Write?
    ensures TableFor(revoked, h + [r], sequence)
  {
    hide LatestRevoke;
    forall b: Block ensures LatestRevoke(h + [r], b) == LatestRevoke(h, b) {
      LatestOfMore(h, r, b);
    }
  }

  /** The decision to skip a block, for transactions within half of the number space. */
  lemma SkipIff(revoked: map<Block, Tid>, h: seq<Record>, sequence: Tid, txn: nat, b: Block)
    requires TableFor(revoked, h, sequence) && txn < 0x8000_0000 && LatestRevoke(h, b) < 0x8000_0000
    ensures b in revoked && TidCmp(TidOf(sequence + txn), revoked[b]) <= 0 <==> LatestRevoke(h, b) >= txn
  {
    if b in revoked {
      SerialOrder(sequence + txn, sequence + LatestRevoke(h, b));
    }
  }

  lemma NotRevoked(revoked: map<Block, Tid>, h: seq<Record>, sequence: Tid, b: Block)
    requires TableFor(revoked, h, sequence) && b !in revoked
    ensures LatestRevoke(h, b) == -1
  {}

  /** One tag read: its entry of the history, and the tags that remain. */
  lemma TagStep(j: Journal, p: nat, txn: nat, tagp: nat, i: nat)
    requires j.Mounted() && p < |j.log| && i <= |TagsOf(j, p)| && Tags(j, j.log[p], tagp) == TagsOf(j, p)[i..]
    requires tagp + j.MinTagSize() <= j.TagLimit()
    ensures i < |TagsOf(j, p)| == |DescrRecords(j, p, txn)|
    ensures var tag := TagAt(j, j.log[p], tagp); var recs := DescrRecords(j, p, txn);
      && (if tag.IsLast() then [] else Tags(j, j.log[p], tagp + TagSize(j, tag))) == TagsOf(j, p)[i + 1..]
      && recs[i] == Write(txn, TagBlock(tag), Restored(Data(j, j.Wrap(p + i + 1)), tag.Escaped()))
      && recs[..i + 1] == recs[..i] + [recs[i]]
  {
    hide TagsOf, TagBlock, Restored, TagAt, TagSize, Data, DataPlace, Journal.MinTagSize;
    var tags := TagsOf(j, p);
    var tag := TagAt(j, j.log[p], tagp);
    assert tags[i..] != [];
    DataAt(j, p, i);
    assert tags[i..][0] == tag && tags[i..][1..] == tags[i + 1..];
  }

  lemma RecordCount(j: Journal, p: nat, txn: nat)
    requires j.Mounted() && p < |j.log|
    ensures |DescrRecords(j, p, txn)| == |TagsOf(j, p)| && Tags(j, j.log[p], 12) == TagsOf(j, p)[0..]
  {}

  lemma SizePositive(j: Journal, tag: Tag)
    ensures TagSize(j, tag) > 0
  {}

  lemma RoomFacts(j: Journal, p: nat)
    requires j.Mounted() && p < |j.log|
    ensures j.first <= j.last && j.blocksize >= 4 && j.TagLimit() <= |j.log[p]|
  {}

  lemma DataAt(j: Journal, p: nat, i: nat)
    requires j.Mounted()
    ensures DataPlace(j, p, i) == j.Wrap(p + 1 + i)
  {}

  lemma NoRoom(j: Journal, p: nat, tagp: nat)
    requires j.Mounted() && p < |j.log| && tagp + j.MinTagSize() > j.TagLimit()
    ensures Tags(j, j.log[p], tagp) == []
  {}

  /** No revoke is out of the reach of the comparison. */
  ghost predicate Recent(h: seq<Record>) {
    forall b: Block :: LatestRevoke(h, b) < 0x8000_0000
  }

  lemma {:induction false} LatestBelow(h: seq<Record>, b: Block, n: nat)
    requires forall r :: r in h ==> r.txn < n
    ensures LatestRevoke(h, b) < n
    decreases |h|
  {
    if h != [] {
      var rest := h[..|h| - 1];
      assert forall r :: r in rest ==> r in h;
      LatestBelow(rest, b, n);
    }
  }

  // ----- How far a pass goes -----

  /** One pass from outside: what it is for, the number that ends it, the place where it ends, and the
      image it starts from. */
  datatype Trip = Trip(phase: Phase, end: Tid, lim: nat, before: Image) {
    function Kind(): Pass { if phase.Scan? then Scanning else Later(end) }
  }

  /** The history of the committed part. */
  ghost function Full(j: Journal, m: nat): seq<Record>
    requires j.Mounted()
  {
    History(j, Committed(j, m))
  }

  lemma FullFacts(j: Journal, m: nat)
    requires j.Mounted()
    ensures Full(j, m) == History(j, Committed(j, m))
  {}

  /** What the scan has found after its first i places. */
  ghost predicate ScanInfo(j: Journal, i: nat, info: RecoveryInfo)
    requires j.Mounted()
  {
    && info.startTxn == j.sequence && (info.hasTxn <==> Commits(j, i) > 0)
    && (info.hasTxn ==> info.endTxn == EndTid(j, i))
  }

  lemma ScanStep(j: Journal, i: nat, info: RecoveryInfo)
    requires j.Mounted() && ScanInfo(j, i, info)
    ensures ScanInfo(j, i + 1,
                     if CommitsAt(j, At(j, i).block) then info.(endTxn := At(j, i).tid, hasTxn := true) else info)
  {
    hide At, CommitsAt, TidOf, Journal.Mounted;
    Consecutive(j, i);
  }

  /** The block read at place i decides how the pass goes on. */
  lemma Passing(j: Journal, pass: Pass, lim: nat, i: nat)
    requires j.Mounted() && Ends(j, pass, lim) && i <= lim
    ensures GoesOn(j, pass, At(j, i)) <==> i < lim
    ensures At(j, i + 1) == Next(j, At(j, i))
    ensures History(j, i + 1) == History(j, i) + RecordsAt(j, At(j, i).block, Commits(j, i))
  {}

  /** The transactions up to place n are within half of the number space. */
  ghost predicate InReach(j: Journal, n: nat)
    requires j.Mounted()
  {
    forall i: nat :: i < n ==> Commits(j, i) < 0x8000_0000
  }

  lemma {:induction false} HistoryReach(j: Journal, n: nat)
    requires j.Mounted() && InReach(j, n)
    ensures forall r :: r in History(j, n) ==> r.txn < 0x8000_0000
  {
    hide RecordsAt, Commits, At, Journal.Mounted;
    if n > 0 {
      HistoryReach(j, n - 1);
      RecordsAtTxn(j, At(j, n - 1).block, Commits(j, n - 1));
    }
  }

  lemma AllRecent(j: Journal, lim: nat, i: nat)
    requires j.Mounted() && InReach(j, lim) && i < lim
    ensures Recent(History(j, lim)) && Commits(j, i) < 0x8000_0000
    ensures At(j, i).tid == TidOf(j.sequence + Commits(j, i))
  {
    hide History, At, Commits, TidOf, LatestRevoke, Journal.Mounted;
    HistoryReach(j, lim);
    Consecutive(j, i);
    forall b: Block ensures LatestRevoke(History(j, lim), b) < 0x8000_0000 {
      LatestBelow(History(j, lim), b, 0x8000_0000);
    }
  }

  /** The committed part is within reach when it has at most 2^31 transactions. */
  lemma CommittedInReach(j: Journal, m: nat)
    requires j.Mounted() && Commits(j, m) <= 0x8000_0000
    ensures InReach(j, Committed(j, m))
  {
    hide Commits, Committed, Journal.Mounted;
    CommittedCommits(j, m);
  }

  /** Only revoke blocks change the table, and only descriptors change the client. */
  lemma OtherBlocks(j: Journal, p: nat, txn: nat)
    requires j.Mounted() && p < |j.log|
    ensures BlockType(j.log[p]) != REVOKE ==> forall r :: r in RecordsAt(j, p, txn) ==> r.Write?
    ensures BlockType(j.log[p]) != DESCRIPTOR ==> forall r :: r in RecordsAt(j, p, txn) ==> r.Revoke?
  {
    hide TagsOf, TagBlock, Data, Restored, RevokedBlocks, BlockType;
  }

  lemma NoRecords(j: Journal, p: nat, txn: nat)
    requires j.Mounted() && p < |j.log| && BlockType(j.log[p]) != DESCRIPTOR && BlockType(j.log[p]) != REVOKE
    ensures RecordsAt(j, p, txn) == []
  {}

  lemma {:induction false} AppliedRevokes(c: Image, h: seq<Record>, full: seq<Record>)
    requires forall r :: r in h ==> r.Revoke?
    ensures Applied(c, h, full) == c
    decreases |h|
  {
    if h != [] {
      assert h[|h| - 1] in h && forall r :: r in h[..|h| - 1] ==> r in h;
      AppliedRevokes(c, h[..|h| - 1], full);
    }
  }

  /** A log without descriptor blocks in its committed part asks for nothing to be written. */
  lemma {:induction false} NoDescriptors(j: Journal, n: nat, c: Image, full: seq<Record>)
    requires j.Mounted()
    requires forall i: nat :: i < n ==> var p := At(j, i).block; p < |j.log| && BlockType(j.log[p]) != DESCRIPTOR
    ensures Applied(c, History(j, n), full) == c
  {
    hide At, Commits, RecordsAt, Applied, BlockType, Journal.Mounted;
    if n == 0 {
      AppliedNone(c, full);
    } else {
      var p, txn := At(j, n - 1).block, Commits(j, n - 1);
      NoDescriptors(j, n - 1, c, full);
      OtherBlocks(j, p, txn);
      AppliedJoin(c, History(j, n - 1), RecordsAt(j, p, txn), full);
      AppliedRevokes(c, RecordsAt(j, p, txn), full);
    }
  }

  /** A descriptor block is replayed whole when the log goes on inside the log file. If it does not,
      this is the last place of the pass, and what was replayed is a part of the whole history. */
  lemma DescrReplayed(j: Journal, pass: Pass, lim: nat, i: nat, k: nat)
    requires j.Mounted() && Ends(j, pass, lim) && i < lim && pass.Later?
    requires At(j, i).block < |j.log| && BlockType(j.log[At(j, i).block]) == DESCRIPTOR
    requires var recs := DescrRecords(j, At(j, i).block, Commits(j, i));
             k <= |recs| && (k < |recs| ==> DataPlace(j, At(j, i).block, k) >= |j.log|)
    ensures var recs := DescrRecords(j, At(j, i).block, Commits(j, i));
      && RecordsAt(j, At(j, i).block, Commits(j, i)) == recs && (k == |recs| ==> recs[..k] == recs)
      && (k < |recs| ==> lim == i + 1 && StopStatus(j, pass, At(j, lim)) == IoError)
  {
    hide TagsOf, After, Lowest, TagBlock, Restored, Data, DataPlace, History, Be32, Readable, Commits;
    Passing(j, pass, lim, i);
    var p := At(j, i).block;
    if k < |DescrRecords(j, p, Commits(j, i))| {
      Consecutive(j, i);
      if After(j, p) < |j.log| {
        DataInside(j, p, k);
      }
      assert At(j, i + 1).block >= |j.log|;
      Unreadable(j, pass, At(j, i + 1));
      EndsOnce(j, pass, lim, i + 1);
    }
  }

  lemma Unreadable(j: Journal, pass: Pass, s: Place)
    requires j.Mounted() && s.block >= |j.log|
    ensures !GoesOn(j, pass, s)
  {}

  lemma PartOf(c: Image, h: seq<Record>, recs: seq<Record>, k: nat, full: seq<Record>)
    requires k <= |recs| && full == h + recs
    ensures |h| + k <= |full| && Applied(Applied(c, h, full), recs[..k], full) == Applied(c, full[..|h| + k], full)
  {
    assert full[..|h| + k] == h + recs[..k];
    AppliedJoin(c, h, recs[..k], full);
  }

  // ----- Revoke entries in the heap -----

  /** The fields of a revoke entry other than its block and its links. */
  datatype EntryState = EntryState(tid: Tid, refcount: int)

  type States = map<Shape.Node, EntryState>

  /** The entries stand for the map revoked, one entry a block, and only held is referenced. */
  ghost predicate StandFor(states: States, revoked: map<Block, Tid>, held: Shape.Node?) {
    && (held != null ==> held in states)
    && (forall n :: n in states ==>
      n.block in revoked && states[n] == EntryState(revoked[n.block], if n == held then 1 else 0))
    && (forall b :: b in revoked ==> exists n :: n in states && n.block == b)
    && (forall a, b :: a in states && b in states && a.block == b.block ==> a == b)
  }

  lemma NothingShown(states: States)
    requires states.Keys == {}
    ensures StandFor(states, map[], null)
  {}

  lemma EntryTaken(states: States, revoked: map<Block, Tid>, n: Shape.Node)
    requires StandFor(states, revoked, null) && n in states
    ensures StandFor(states[n := states[n].(refcount := 1)], revoked, n) && n.block in revoked
        && states[n].refcount == 0
  {}

  lemma EntryAdded(states: States, revoked: map<Block, Tid>, n: Shape.Node, tid: Tid)
    requires StandFor(states, revoked, null) && n !in states && forall x :: x in states ==> x.block != n.block
    ensures n.block !in revoked && StandFor(states[n := EntryState(tid, 1)], revoked[n.block := tid], n)
  {}

  lemma EntryStamped(states: States, revoked: map<Block, Tid>, n: Shape.Node, tid: Tid)
    requires StandFor(states, revoked, n)
    ensures StandFor(states[n := EntryState(tid, 1)], revoked[n.block := tid], n) && n in states
        && states[n].refcount == 1
  {}

  lemma EntryReleased(states: States, revoked: map<Block, Tid>, n: Shape.Node)
    requires StandFor(states, revoked, n)
    ensures StandFor(states[n := states[n].(refcount := 0)], revoked, null) && n in states && states[n].refcount == 1
  {}

  /** Whether a block has an entry can be read off the map. */
  lemma EntryOf(states: States, revoked: map<Block, Tid>, held: Shape.Node?, block: Block)
    requires StandFor(states, revoked, held)
    ensures block in revoked <==> exists n :: n in states && n.block == block
    ensures forall n :: n in states ==> n.block in revoked && states[n].tid == revoked[n.block]
  {}

  // ----- Clearing the table -----

  /** The entries in s are gone from the table, in order; all others are still to come. */
  ghost predicate Clearing(all: set<Shape.Node>, nodes: set<Shape.Node>, s: seq<Shape.Node>) {
    && nodes <= all && Shape.Sorted(s) && Shape.Elements(s) == all - nodes
    && (forall a, b :: a in all && b in all && a.block == b.block ==> a == b)
    && (forall x, n :: x in s && n in nodes ==> x.block < n.block)
  }

  lemma ClearStarts(states: States, revoked: map<Block, Tid>)
    requires StandFor(states, revoked, null)
    ensures Clearing(states.Keys, states.Keys, []) && forall n :: n in states ==> states[n].refcount == 0
  {}

  lemma ClearStep(all: set<Shape.Node>, nodes: set<Shape.Node>, s: seq<Shape.Node>, re: Shape.Node, next: Shape.Node?)
    requires Clearing(all, nodes, s) && RedBlackHeap.AtLeast(nodes, 0, re)
        && RedBlackHeap.AtLeast(nodes, re.block + 1, next)
    ensures Clearing(all, nodes - {re}, s + [re]) && RedBlackHeap.AtLeast(nodes - {re}, 0, next)
    ensures next != null ==> next in nodes - {re}
  {
    RedBlackTree.Appended(s, re);
  }

  lemma ClearEnds(all: set<Shape.Node>, nodes: set<Shape.Node>, s: seq<Shape.Node>)
    requires Clearing(all, nodes, s) && RedBlackHeap.AtLeast(nodes, 0, null)
    ensures nodes == {} && Shape.Sorted(s) && Shape.Elements(s) == all
  {}

  class Handle {
    const journal: Journal
    const revokeTable: RedBlackTree.Table
    var client: Image
    /** The entries given back to the lookaside list. */
    var freed: seq<Shape.Node>
    ghost var revoked: map<Block, Tid>

    /** The part of jbd2_open_handle that sets up the handle, with a table fresh from RB_INIT. */
    constructor (journal: Journal, client: Image, table: RedBlackTree.Table)
      requires table.Valid() && table.nodes == {}
      ensures Shows(null) && this.journal == journal && this.client == client
      ensures revoked == map[] && revokeTable == table && freed == []
    {
      hide RedBlackTree.Table.Valid, StandFor;
      this.journal, this.client, freed, revoked, revokeTable := journal, client, [], map[], table;
      new;
      NothingShown(Entries());
    }

    // ----- The revoke table -----

    ghost function Entries(): (states: States)
      reads revokeTable`nodes, revokeTable.nodes
      ensures states.Keys == revokeTable.nodes
    {
      map n | n in revokeTable.nodes :: EntryState(n.tid, n.refcount)
    }

    /** The table stands for the map revoked, and nobody but one caller holds one of its entries. */
    ghost predicate Shows(held: Shape.Node?)
      reads this`revoked, revokeTable, revokeTable.nodes
    {
      revokeTable.Valid() && StandFor(Entries(), revoked, held)
    }

    /** One more reference to an entry of the table. */
    method Take(re: Shape.Node)
      requires Shows(null) && re in revokeTable.nodes
      modifies re`refcount
      ensures Shows(re)
    {
      hide RedBlackTree.Table.Valid, RedBlackTree.Table.Links, StandFor;
      EntryTaken(Entries(), revoked, re);
      ghost var states := Entries();
      re.refcount := re.refcount + 1;
      revokeTable.Undisturbed();
      assert Entries() == states[re := EntryState(re.tid, 1)];
    }

    /** An entry that was there already. */
    method TakeKnown(re: Shape.Node)
      requires Shows(null) && re in revokeTable.nodes
      modifies re`refcount, re`isNew
      ensures Shows(re) && !re.isNew
    {
      hide RedBlackTree.Table.Valid, RedBlackTree.Table.Links, StandFor;
      ghost var states := Entries();
      re.isNew := false;
      revokeTable.Undisturbed();
      assert Entries() == states;
      Take(re);
    }

    /** The first reference to an entry that the table has just taken in. */
    method TakeNew(re: Shape.Node, ghost states: States)
      requires revokeTable.Valid() && re in revokeTable.nodes && re.refcount == 0
      requires re !in states && Entries() == states[re := EntryState(re.tid, 0)] && StandFor(states, revoked, null)
      requires forall x :: x in states ==> x.block != re.block
      modifies re`refcount, this`revoked
      ensures Shows(re) && revoked == old(revoked)[re.block := re.tid]
    {
      hide RedBlackTree.Table.Valid, RedBlackTree.Table.Links, StandFor;
      EntryAdded(states, revoked, re, re.tid);
      revoked := revoked[re.block := re.tid];
      re.refcount := re.refcount + 1;
      revokeTable.Undisturbed();
      assert Entries() == states[re := EntryState(re.tid, 1)];
    }

    /** jbd2_revoke_entry_get: the entry of a block, with one more reference; a new one when there
        was none. */
    method RevokeEntryGet(block: Block) returns (re: Shape.Node)
      requires Shows(null)
      modifies this`freed, this`revoked, revokeTable, revokeTable.nodes
      ensures Shows(re) && re.block == block && revokeTable.nodes == old(revokeTable.nodes) + {re}
      ensures block in old(revoked) ==> re in old(revokeTable.nodes) && revoked == old(revoked) && !re.isNew
      ensures block !in old(revoked) ==> fresh(re) && revoked == old(revoked)[block := re.tid] && re.isNew
    {
      hide RedBlackTree.Table.Valid, RedBlackTree.Table.Links, StandFor;
      ghost var states := Entries();
      EntryOf(states, revoked, null, block);
      var tmp := new Shape.Node(block);
      var found := revokeTable.Insert(tmp);
      if found != null {
        freed := freed + [tmp];
        re := found;
        assert Entries() == states;
        TakeKnown(re);
      } else {
        re := tmp;
        TakeNew(re, states);
      }
    }

    /** jbd2_revoke_entry_find: the entry of a block, with one more reference, if there is one. */
    method RevokeEntryFind(block: Block) returns (re: Shape.Node?)
      requires Shows(null)
      modifies revokeTable.nodes`refcount
      ensures Shows(re)
      ensures re == null <==> block !in revoked
      ensures re != null ==> re in revokeTable.nodes && re.block == block && re.tid == revoked[block]
    {
      hide RedBlackTree.Table.Valid, RedBlackTree.Table.Links, StandFor;
      ghost var states := Entries();
      EntryOf(states, revoked, null, block);
      var tmp := new Shape.Node(block);
      re := revokeTable.Find(tmp);
      if re != null {
        Take(re);
      }
    }

    /** jbd2_revoke_entry_put: the last but one reference given back leaves the entry in the table;
        any other count removes and frees it. */
    method RevokeEntryPut(re: Shape.Node)
      requires revokeTable.Valid() && re in revokeTable.nodes
      modifies re, this`freed, revokeTable, revokeTable.nodes`left, revokeTable.nodes`right, revokeTable.nodes`parent,
        revokeTable.nodes`color
      ensures revokeTable.Valid() && re.refcount == old(re.refcount) - 1 && re.tid == old(re.tid)
      ensures re.refcount == 0 ==> revokeTable.nodes == old(revokeTable.nodes) && freed == old(freed)
      ensures re.refcount != 0 ==> revokeTable.nodes == old(revokeTable.nodes) - {re} && freed == old(freed) + [re]
    {
      hide RedBlackTree.Table.Valid, RedBlackTree.Table.Links;
      re.refcount := re.refcount - 1;
      revokeTable.Undisturbed();
      if re.refcount != 0 {
        var _ := revokeTable.Remove(re);
        freed := freed + [re];
      }
    }

    /** A reference given back by its only holder changes nothing in the table. */
    method Release(re: Shape.Node)
      requires Shows(re)
      modifies re, this`freed, revokeTable, revokeTable.nodes`left, revokeTable.nodes`right, revokeTable.nodes`parent,
        revokeTable.nodes`color
      ensures Shows(null) && revokeTable.nodes == old(revokeTable.nodes) && freed == old(freed)
    {
      hide RedBlackTree.Table.Valid, StandFor;
      ghost var states := Entries();
      EntryReleased(states, revoked, re);
      RevokeEntryPut(re);
      assert Entries() == states[re := EntryState(re.tid, 0)];
    }

    /** The statement of jbd2_scan_revoke_entries between get and put. */
    method Stamp(re: Shape.Node, tid: Tid)
      requires Shows(re)
      modifies re`tid, this`revoked
      ensures Shows(re) && re.tid == tid && revoked == old(revoked)[re.block := tid]
    {
      hide RedBlackTree.Table.Valid, StandFor;
      ghost var states := Entries();
      EntryStamped(states, revoked, re, tid);
      re.tid := tid;
      revoked := revoked[re.block := tid];
      revokeTable.Undisturbed();
      assert Entries() == states[re := EntryState(tid, 1)];
    }

    /** jbd2_revoke_table_clear: every entry is removed and freed once, in the order of the blocks,
        although the loop removes the entry it stands on. */
    method RevokeTableClear() returns (ghost s: seq<Shape.Node>)
      requires Shows(null)
      modifies this`freed, this`revoked, revokeTable, revokeTable.nodes
      ensures Shows(null) && revokeTable.nodes == {} && revoked == map[]
      ensures freed == old(freed) + s && Shape.Sorted(s) && Shape.Elements(s) == old(revokeTable.nodes)
    {
      hide RedBlackTree.Table.Valid, RedBlackTree.Table.Links, TableFor, StandFor, Clearing, Shape.Sorted,
        Shape.Elements, RedBlackHeap.AtLeast;
      s := [];
      ghost var all := revokeTable.nodes;
      ClearStarts(Entries(), revoked);
      var re := revokeTable.MinMax(-1);
      while re != null
        invariant revokeTable.Valid() && Clearing(all, revokeTable.nodes, s) && freed == old(freed) + s
        invariant revokeTable.nodes <= all && forall n :: n in revokeTable.nodes ==> n.refcount == 0
        invariant RedBlackHeap.AtLeast(revokeTable.nodes, 0, re) && (re != null ==> re in revokeTable.nodes)
        decreases revokeTable.nodes
      {
        var tmp := revokeTable.Next(re);
        ClearStep(all, revokeTable.nodes, s, re, tmp);
        s := s + [re];
        RevokeEntryPut(re);
        re := tmp;
      }
      ClearEnds(all, revokeTable.nodes, s);
      revoked := map[];
      NothingShown(Entries());
    }

    // ----- Descriptor and revoke blocks -----

    /** jbd2_count_tags, counting the last tag. */
    method CountTags(b: Bytes) returns (nr: nat)
      requires journal.Mounted() && |b| == journal.blocksize
      ensures nr == |Tags(journal, b, 12)|
    {
      nr := 0;
      var tagp := 12;
      var done := false;
      while !done && tagp + journal.MinTagSize() <= journal.TagLimit()
        invariant |Tags(journal, b, 12)| == nr + if done then 0 else |Tags(journal, b, tagp)|
        decreases !done, journal.TagLimit() - tagp
      {
        var tag := TagAt(journal, b, tagp);
        nr := nr + 1;
        done := tag.IsLast();
        tagp := tagp + TagSize(journal, tag);
      }
    }

    /** One entry of a revoke block: the block now counts as revoked by this transaction. */
    method Revoked(block: Block, tid: Tid)
      requires Shows(null)
      modifies this`freed, this`revoked, revokeTable, revokeTable.nodes
      ensures Shows(null) && revoked == old(revoked)[block := tid]
      ensures fresh(revokeTable.nodes - old(revokeTable.nodes))
    {
      hide RedBlackTree.Table.Valid, StandFor;
      var re := RevokeEntryGet(block);
      Stamp(re, tid);
      Release(re);
    }

    /** jbd2_scan_revoke_entries, with the entries behind the revoke header. */
    method ScanRevokeEntries(tid: Tid, b: Bytes, ghost h: seq<Record>, ghost txn: nat) returns (status: Status)
      requires Shows(null) && journal.Mounted() && |b| == journal.blocksize
      requires TableFor(revoked, h, journal.sequence) && tid == TidOf(journal.sequence + txn)
      modifies this`freed, this`revoked, revokeTable, revokeTable.nodes
      ensures Shows(null) && fresh(revokeTable.nodes - old(revokeTable.nodes))
      ensures TableFor(revoked, h + RevokeRecords(RevokedBlocks(journal, b), txn), journal.sequence)
      ensures status == if RevokeSane(journal, b) then Success else Corrupt
    {
      hide RedBlackTree.Table.Valid, StandFor, TableFor, Be32, EntryAt, TidOf, Shows;
      ghost var blocks := RevokedBlocks(journal, b);
      var rcount := Be32(b, 12);
      if rcount > journal.TagLimit() {
        assert h + RevokeRecords(blocks, txn) == h;
        return Corrupt;
      }
      var bufp := 16;
      ghost var k := 0;
      assert h + RevokeRecords(blocks[..0], txn) == h;
      while bufp + EntrySize(journal) <= rcount
        invariant Shows(null) && fresh(revokeTable.nodes - old(revokeTable.nodes))
        invariant k <= |blocks| && JournalFormat.Entries(journal, b, bufp, rcount) == blocks[k..]
        invariant TableFor(revoked, h + RevokeRecords(blocks[..k], txn), journal.sequence)
        decreases rcount - bufp
      {
        var block := EntryAt(journal, b, bufp);
        assert blocks[k..][0] == block && blocks[k..][1..] == blocks[k + 1..];
        ghost var was := revoked;
        Revoked(block, tid);
        TableForMore(was, h + RevokeRecords(blocks[..k], txn), journal.sequence, txn, block);
        assert h + RevokeRecords(blocks[..k + 1], txn) == h + RevokeRecords(blocks[..k], txn) + [Revoke(txn, block)];
        bufp := bufp + EntrySize(journal);
        k := k + 1;
      }
      assert blocks[..k] == blocks;
      status := Success;
    }

    /** Replay of one tag: its data goes to its block unless an equal or later transaction revokes it. */
    method ReplayTag(tid: Tid, tag: Tag, from: nat, ghost full: seq<Record>, ghost txn: nat) returns (status: Status)
      requires Shows(null) && TableFor(revoked, full, journal.sequence) && Recent(full)
      requires txn < 0x8000_0000 && tid == TidOf(journal.sequence + txn)
      modifies this`client, this`freed, revokeTable, revokeTable.nodes
      ensures Shows(null) && revokeTable.nodes == old(revokeTable.nodes) && freed == old(freed)
      ensures status.Success? ==>
          client == Stored(old(client), Write(txn, TagBlock(tag), Restored(Data(journal, from), tag.Escaped())), full)
      ensures !status.Success? ==> status == IoError && client == old(client) && from >= |journal.log|
    {
      hide RedBlackTree.Table.Valid, StandFor, TableFor, LatestRevoke, TidCmp, TidOf, TagBlock, Restored;
      var block := TagBlock(tag);
      SkipIff(revoked, full, journal.sequence, txn, block);
      if block !in revoked {
        NotRevoked(revoked, full, journal.sequence, block);
      }
      var entry := RevokeEntryFind(block);
      if entry != null {
        var reTid := entry.tid;
        Release(entry);
        if TidCmp(tid, reTid) <= 0 {
          return Success;
        }
      }
      if from >= |journal.log| {
        return IoError;
      }
      client := client[block := Restored(journal.log[from], tag.Escaped())];
      status := Success;
    }

    /** jbd2_replay_descr_block, on the circle: the entries of the block are replayed in order, up to
        the first whose data is not in the log file. */
    method ReplayDescrBlock(tid: Tid, p: nat, ghost full: seq<Record>, ghost txn: nat)
        returns (status: Status, ghost k: nat)
      requires Shows(null) && TableFor(revoked, full, journal.sequence) && Recent(full)
      requires txn < 0x8000_0000 && tid == TidOf(journal.sequence + txn)
      requires journal.Mounted() && p < |journal.log|
      modifies this`client, this`freed, revokeTable, revokeTable.nodes
      ensures Shows(null) && revokeTable.nodes == old(revokeTable.nodes) && freed == old(freed)
      ensures var recs := DescrRecords(journal, p, txn);
        && k <= |recs| && client == Applied(old(client), recs[..k], full) && (status.Success? <==> k == |recs|)
        && (k < |recs| ==> status == IoError && DataPlace(journal, p, k) >= |journal.log|)
    {
      hide *;
      ghost var recs := DescrRecords(journal, p, txn);
      ghost var tags := TagsOf(journal, p);
      var tagp, nr, done := 12, 1, false;
      status := Success;
      RoomFacts(journal, p);
      RecordCount(journal, p, txn);
      AppliedNone(client, full);
      while !done && tagp + journal.MinTagSize() <= journal.TagLimit()
        invariant Shows(null) && revokeTable.nodes == old(revokeTable.nodes) && freed == old(freed)
        invariant 1 <= nr <= |tags| + 1 && status.Success?
        invariant (if done then [] else Tags(journal, journal.log[p], tagp)) == tags[nr - 1..]
        invariant client == Applied(old(client), recs[..nr - 1], full)
        decreases !done, journal.TagLimit() - tagp
      {
        var tag := TagAt(journal, journal.log[p], tagp);
        TagStep(journal, p, txn, tagp, nr - 1);
        status := ReplayTag(tid, tag, journal.Wrap(p + nr), full, txn);
        if !status.Success? {
          k := nr - 1;
          assert DataPlace(journal, p, k) == journal.Wrap(p + nr) by {
            DataAt(journal, p, k);
          }
          return;
        }
        AppliedMore(old(client), recs[..nr - 1], recs[nr - 1], full);
        done := tag.IsLast();
        SizePositive(journal, tag);
        tagp, nr := tagp + TagSize(journal, tag), nr + 1;
      }
      if !done {
        NoRoom(journal, p, tagp);
      }
      k := nr - 1;
    }

    // ----- The passes -----

    /** The state of a pass after its first i places. */
    ghost predicate Sofar(g: Trip, i: nat, info: RecoveryInfo)
      requires journal.Mounted()
      reads this`client, this`revoked, revokeTable, revokeTable.nodes
    {
      && Shows(null) && i <= g.lim
      && (g.phase.Scan? ==> ScanInfo(journal, i, info))
      && (!g.phase.Scan? ==> info.endTxn == g.end && InReach(journal, g.lim))
      && (g.phase.ScanRevoke? ==> TableFor(revoked, History(journal, i), journal.sequence))
      && (g.phase.Replay? ==>
            && TableFor(revoked, History(journal, g.lim), journal.sequence)
            && client == Applied(g.before, History(journal, i), History(journal, g.lim)))
    }

    /** The state of a pass when it has ended: n entries of the history are replayed, which are all of
        them unless the log goes on outside the log file. */
    ghost predicate Done(g: Trip, info: RecoveryInfo, n: nat)
      requires journal.Mounted()
      reads this`client, this`revoked, revokeTable, revokeTable.nodes
    {
      && Shows(null) && (g.phase.Scan? ==> ScanInfo(journal, g.lim, info))
      && (g.phase.ScanRevoke? ==> info.endTxn == g.end && TableFor(revoked, History(journal, g.lim), journal.sequence))
      && (g.phase.Replay? ==>
            && n <= |History(journal, g.lim)|
            && client == Applied(g.before, History(journal, g.lim)[..n], History(journal, g.lim))
            && (n == |History(journal, g.lim)| || StopStatus(journal, g.Kind(), At(journal, g.lim)) == IoError))
    }

    /** The pass stands at place i and has read a block with the expected header. */
    ghost predicate Here(g: Trip, curr: nat, tid: Tid, i: nat, info: RecoveryInfo)
      reads this`client, this`revoked, revokeTable, revokeTable.nodes
    {
      && journal.Mounted() && Ends(journal, g.Kind(), g.lim) && Sofar(g, i, info)
      && At(journal, i) == Place(curr, tid) && (!g.phase.Scan? ==> TidCmp(tid, g.end) <= 0)
      && curr < |journal.log| && Matches(journal.log[curr], tid)
    }

    method OnDescriptor(phase: Phase, curr: nat, tid: Tid, ghost g: Trip, ghost i: nat, ghost info: RecoveryInfo)
      returns (status: Status, stop: bool, next: nat, ghost n: nat)
      requires Here(g, curr, tid, i, info) && phase == g.phase && BlockType(journal.log[curr]) == DESCRIPTOR
      modifies this`client, this`freed, revokeTable, revokeTable.nodes
      ensures stop ==> status == StopStatus(journal, g.Kind(), At(journal, g.lim)) && Done(g, info, n)
      ensures !stop ==> status.Success? && Sofar(g, i + 1, info) && At(journal, i + 1) == Place(next, tid)
      ensures revokeTable.nodes == old(revokeTable.nodes) && freed == old(freed)
      ensures !phase.Replay? ==> client == old(client)
    {
      hide At, Ends, Commits, History, RecordsAt, Tags, Applied, TableFor, StandFor, RedBlackTree.Table.Valid, TidOf;
      hide Be32, TidCmp, InReach, DescrRecords;
      var b := journal.log[curr];
      ghost var txn, full, h := Commits(journal, i), History(journal, g.lim), History(journal, i);
      Passing(journal, g.Kind(), g.lim, i);
      n := Whole(g, i, info);
      status, stop, next := Success, false, curr;
      if !journal.verifies(b) {
        status, stop := if phase.Scan? then Success else Corrupt, true;
      } else {
        var nr := CountTags(b);
        next := journal.Wrap(curr + nr + 1);
        if phase.Scan? {
          if !journal.dataVerifies(curr, b) {
            status, stop := Unsuccessful, true;
          } else {
            ScanStep(journal, i, info);
          }
        } else if phase.Replay? {
          AllRecent(journal, g.lim, i);
          ghost var k;
          status, k := ReplayDescrBlock(tid, curr, full, txn);
          ghost var recs := DescrRecords(journal, curr, txn);
          DescrReplayed(journal, g.Kind(), g.lim, i, k);
          AppliedJoin(g.before, h, recs, full);
          if k < |recs| {
            PartOf(g.before, h, recs, k, full);
            n := |h| + k;
          }
          stop := !status.Success?;
        } else {
          OtherBlocks(journal, curr, txn);
          TableForSame(revoked, h, journal.sequence, RecordsAt(journal, curr, txn));
        }
      }
    }

    /** A pass that has got to its end is done. */
    lemma Whole(g: Trip, i: nat, info: RecoveryInfo) returns (n: nat)
      requires journal.Mounted() && Sofar(g, i, info)
      ensures i == g.lim ==> Done(g, info, n)
    {
      hide ScanInfo, TableFor, Applied, StopStatus, Shows, InReach, At;
      n := |History(journal, g.lim)|;
      assert History(journal, g.lim)[..n] == History(journal, g.lim);
    }

    method OnRevoke(phase: Phase, curr: nat, tid: Tid, ghost g: Trip, ghost i: nat, ghost info: RecoveryInfo)
      returns (status: Status, stop: bool, next: nat, ghost n: nat)
      requires Here(g, curr, tid, i, info) && phase == g.phase && BlockType(journal.log[curr]) == REVOKE
      modifies this`freed, this`revoked, revokeTable, revokeTable.nodes
      ensures stop ==> status == StopStatus(journal, g.Kind(), At(journal, g.lim)) && Done(g, info, n)
      ensures !stop ==> status.Success? && Sofar(g, i + 1, info) && At(journal, i + 1) == Place(next, tid)
      ensures !phase.ScanRevoke? ==>
                revoked == old(revoked) && revokeTable.nodes == old(revokeTable.nodes) && freed == old(freed)
      ensures fresh(revokeTable.nodes - old(revokeTable.nodes))
    {
      hide At, Ends, Commits, History, RevokeRecords, Applied, TableFor, StandFor, RedBlackTree.Table.Valid, TidOf;
      hide Be32, TidCmp, InReach;
      var b := journal.log[curr];
      ghost var txn, full, h := Commits(journal, i), History(journal, g.lim), History(journal, i);
      Passing(journal, g.Kind(), g.lim, i);
      n := Whole(g, i, info);
      status, stop, next := Success, false, curr;
      if !journal.verifies(b) {
        status, stop := if phase.Scan? then Success else Corrupt, true;
      } else {
        if phase.ScanRevoke? {
          AllRecent(journal, g.lim, i);
          var _ := ScanRevokeEntries(tid, b, h, txn);
        } else if phase.Scan? {
          ScanStep(journal, i, info);
        } else {
          OtherBlocks(journal, curr, txn);
          AppliedJoin(g.before, h, RecordsAt(journal, curr, txn), full);
          AppliedRevokes(client, RecordsAt(journal, curr, txn), full);
        }
        next := journal.Wrap(curr + 1);
      }
    }

    /** Commit blocks, and the blocks of the types 3 and 4. */
    method OnOther(phase: Phase, curr: nat, tid: Tid, info0: RecoveryInfo, ghost g: Trip, ghost i: nat)
      returns (status: Status, stop: bool, next: nat, nextTid: Tid, info: RecoveryInfo, ghost n: nat)
      requires Here(g, curr, tid, i, info0) && phase == g.phase
      requires BlockType(journal.log[curr]) != REVOKE && BlockType(journal.log[curr]) != DESCRIPTOR
      ensures stop ==> status == StopStatus(journal, g.Kind(), At(journal, g.lim)) && Done(g, info, n)
      ensures !stop ==> status.Success? && Sofar(g, i + 1, info) && At(journal, i + 1) == Place(next, nextTid)
    {
      hide At, Ends, Commits, History, Applied, TableFor, StandFor, RedBlackTree.Table.Valid, TidOf, Be32, TidCmp,
        InReach;
      var b := journal.log[curr];
      Passing(journal, g.Kind(), g.lim, i);
      n := Whole(g, i, info0);
      status, stop, next, nextTid, info := Success, false, curr, tid, info0;
      if BlockType(b) == COMMIT {
        if !journal.verifies(b) {
          status, stop := if phase.Scan? then Success else Corrupt, true;
          return;
        }
        if phase.Scan? {
          info := info.(endTxn := tid, hasTxn := true);
        }
        nextTid, next := (tid + 1) % TID_LIMIT, journal.Wrap(curr + 1);
      }
      NoRecords(journal, curr, Commits(journal, i));
      assert History(journal, i) + [] == History(journal, i);
      if phase.Scan? {
        ScanStep(journal, i, info0);
      }
    }

    /** The body of the loop of jbd2_replay_one_pass, from the read of the block on. */
    method OneBlock(phase: Phase, curr: nat, tid: Tid, info0: RecoveryInfo, ghost g: Trip, ghost i: nat)
      returns (status: Status, stop: bool, next: nat, nextTid: Tid, info: RecoveryInfo, ghost n: nat)
      requires journal.Mounted() && Ends(journal, g.Kind(), g.lim) && Sofar(g, i, info0) && phase == g.phase
      requires At(journal, i) == Place(curr, tid) && (!phase.Scan? ==> TidCmp(tid, g.end) <= 0)
      modifies this`client, this`freed, this`revoked, revokeTable, revokeTable.nodes
      ensures stop ==> status == StopStatus(journal, g.Kind(), At(journal, g.lim)) && Done(g, info, n)
      ensures !stop ==> status.Success? && Sofar(g, i + 1, info) && At(journal, i + 1) == Place(next, nextTid)
      ensures !phase.ScanRevoke? ==>
                revoked == old(revoked) && revokeTable.nodes == old(revokeTable.nodes) && freed == old(freed)
      ensures !phase.Replay? ==> client == old(client)
      ensures fresh(revokeTable.nodes - old(revokeTable.nodes))
    {
      hide At, Ends, Commits, Sofar, Done, TidOf, Be32, TidCmp;
      Within(g, i, info0);
      Passing(journal, g.Kind(), g.lim, i);
      n := Whole(g, i, info0);
      status, stop, next, nextTid, info := Success, true, curr, tid, info0;
      if curr >= |journal.log| {
        status := IoError;
      } else if !Matches(journal.log[curr], tid) {
        status := if phase.Scan? then Success else Corrupt;
      } else if BlockType(journal.log[curr]) == DESCRIPTOR {
        status, stop, next, n := OnDescriptor(phase, curr, tid, g, i, info0);
      } else if BlockType(journal.log[curr]) == REVOKE {
        status, stop, next, n := OnRevoke(phase, curr, tid, g, i, info0);
      } else {
        status, stop, next, nextTid, info, n := OnOther(phase, curr, tid, info0, g, i);
      }
    }

    lemma Within(g: Trip, i: nat, info: RecoveryInfo)
      requires journal.Mounted() && Sofar(g, i, info)
      ensures i <= g.lim && (!g.phase.Scan? ==> info.endTxn == g.end)
    {
      hide Shows, ScanInfo, TableFor, Applied, InReach;
    }

    /** One pass of jbd2_replay_one_pass, with the record of the scan that it is given: it goes through
        the places of the walk in order, to the one where it ends. */
    method ReplayOnePass(phase: Phase, info0: RecoveryInfo, ghost lim: nat)
      returns (status: Status, info: RecoveryInfo, ghost n: nat)
      requires journal.Mounted() && Shows(null)
      requires Ends(journal, Trip(phase, info0.endTxn, lim, client).Kind(), lim)
      requires !phase.Scan? ==> InReach(journal, lim)
      requires phase.ScanRevoke? ==> revoked == map[]
      requires phase.Replay? ==> TableFor(revoked, History(journal, lim), journal.sequence)
      modifies this`client, this`freed, this`revoked, revokeTable, revokeTable.nodes
      ensures var g := Trip(phase, info0.endTxn, lim, old(client));
        Done(g, info, n) && status == StopStatus(journal, g.Kind(), At(journal, lim))
      ensures fresh(revokeTable.nodes - old(revokeTable.nodes))
      ensures !phase.Replay? ==> client == old(client)
      ensures !phase.ScanRevoke? ==>
                revoked == old(revoked) && revokeTable.nodes == old(revokeTable.nodes) && freed == old(freed)
    {
      hide *;
      ghost var g := Trip(phase, info0.endTxn, lim, client);
      var curr, tid := journal.start, journal.sequence;
      info := if phase.Scan? then RecoveryInfo(journal.sequence, 0, false) else info0;
      status := Success;
      ghost var i := 0;
      n := 0;
      Started(g, info);
      var stop := false;
      while !stop
        invariant !stop ==> Sofar(g, i, info) && At(journal, i) == Place(curr, tid) && status.Success?
        invariant stop ==> Done(g, info, n) && status == StopStatus(journal, g.Kind(), At(journal, lim))
        invariant fresh(revokeTable.nodes - old(revokeTable.nodes))
        invariant !phase.Replay? ==> client == old(client)
        invariant !phase.ScanRevoke? ==>
                    revoked == old(revoked) && revokeTable.nodes == old(revokeTable.nodes) && freed == old(freed)
        decreases !stop, if stop then 0 else lim - i
      {
        Within(g, i, info);
        if !phase.Scan? && TidCmp(tid, info.endTxn) > 0 {
          PassedEnd(g, i);
          n := Whole(g, i, info);
          stop := true;
        } else {
          status, stop, curr, tid, info, n := OneBlock(phase, curr, tid, info, g, i);
          i := i + 1;
        }
      }
    }

    lemma Started(g: Trip, info: RecoveryInfo)
      requires journal.Mounted() && Shows(null) && client == g.before
      requires if g.phase.Scan? then info == RecoveryInfo(journal.sequence, 0, false)
               else info.endTxn == g.end && InReach(journal, g.lim)
      requires g.phase.ScanRevoke? ==> revoked == map[]
      requires g.phase.Replay? ==> TableFor(revoked, History(journal, g.lim), journal.sequence)
      ensures Sofar(g, 0, info) && At(journal, 0) == Place(journal.start, journal.sequence)
    {
      hide Shows, InReach;
      AppliedNone(client, History(journal, g.lim));
      TableForNothing(journal.sequence);
    }

    /** The test at the head of the loop ends the pass. */
    lemma PassedEnd(g: Trip, i: nat)
      requires journal.Mounted() && Ends(journal, g.Kind(), g.lim) && i <= g.lim
      requires !g.phase.Scan? && TidCmp(At(journal, i).tid, g.end) > 0
      ensures i == g.lim && StopStatus(journal, g.Kind(), At(journal, i)).Success?
    {
      hide At, TidCmp;
    }

    /** jbd2_replay_journal, with the status tests the right way round: the result is the image that
        the history of the committed part calls for, and the table is empty again. */
    method ReplayJournal() returns (status: Status, ghost m: nat)
      requires journal.Mounted() && Shows(null) && revoked == map[] && !Returns(journal, Scanning)
      requires forall n: nat :: Ends(journal, Scanning, n) ==> Commits(journal, n) <= 0x8000_0000
      modifies this`client, this`freed, this`revoked, revokeTable, revokeTable.nodes
      ensures Ends(journal, Scanning, m) && status == StopStatus(journal, Scanning, At(journal, m))
      ensures status.Success? ==> RecoveredTo(Full(journal, m), old(client), client)
      ensures status.Success? ==> client == Applied(old(client), Full(journal, m), Full(journal, m))
      ensures !status.Success? ==> client == old(client)
      ensures Shows(null) && revoked == map[] && revokeTable.nodes == {}
    {
      hide *;
      PassEndsIff(journal, Scanning);
      m :| Ends(journal, Scanning, m);
      var info;
      ghost var n;
      ghost var c := Committed(journal, m);
      ScanKind(m, client);
      status, info, n := ReplayOnePass(Scan, RecoveryInfo(0, 0, false), m);
      Scanned(m, info, n, client);
      if status.Success? && info.hasTxn {
        LaterPassVisits(journal, m);
        CommittedInReach(journal, m);
        Committing(m, info, client);
        status, info, n := ReplayOnePass(ScanRevoke, info, c);
        TableBuilt(Trip(ScanRevoke, EndTid(journal, m), c, client), info, n);
        status, info, n := ReplayOnePass(Replay, info, c);
        Replayed(m, info, n, old(client));
      }
      var _ := RevokeTableClear();
      HistoryOrder(journal, Committed(journal, m));
      FullFacts(journal, m);
      AppliedRecovers(old(client), Full(journal, m));
    }

    lemma ScanKind(m: nat, before: Image)
      ensures Trip(Scan, 0, m, before).Kind() == Scanning
    {}

    lemma Scanned(m: nat, info: RecoveryInfo, n: nat, before: Image)
      requires journal.Mounted() && Done(Trip(Scan, 0, m, before), info, n)
      ensures Shows(null) && (info.hasTxn <==> Commits(journal, m) > 0)
      ensures info.hasTxn ==> info.endTxn == EndTid(journal, m)
      ensures !info.hasTxn ==> Full(journal, m) == [] && Applied(before, [], []) == before
    {
      hide Shows;
      CommittedCommits(journal, m);
    }

    lemma Committing(m: nat, info: RecoveryInfo, before: Image)
      requires journal.Mounted() && Commits(journal, m) > 0 && info.endTxn == EndTid(journal, m)
      requires VisitsCommitted(journal, Later(EndTid(journal, m)), m)
      ensures forall phase :: phase in {ScanRevoke, Replay} ==>
                Trip(phase, info.endTxn, Committed(journal, m), before).Kind() == Later(info.endTxn)
      ensures Ends(journal, Later(info.endTxn), Committed(journal, m))
      ensures StopStatus(journal, Later(info.endTxn), At(journal, Committed(journal, m))).Success?
    {}

    lemma TableBuilt(g: Trip, info: RecoveryInfo, n: nat)
      requires journal.Mounted() && g.phase.ScanRevoke? && Done(g, info, n)
      ensures Shows(null) && info.endTxn == g.end && TableFor(revoked, History(journal, g.lim), journal.sequence)
    {
      hide Shows, TableFor;
    }

    lemma Replayed(m: nat, info: RecoveryInfo, n: nat, before: Image)
      requires journal.Mounted() && Commits(journal, m) > 0
      requires VisitsCommitted(journal, Later(EndTid(journal, m)), m)
      requires Done(Trip(Replay, EndTid(journal, m), Committed(journal, m), before), info, n)
      ensures Shows(null) && client == Applied(before, Full(journal, m), Full(journal, m))
    {
      hide Shows, TableFor, At, Committed, EndTid, Ends, Applied;
      assert Full(journal, m)[..|Full(journal, m)|] == Full(journal, m);
    }

    /** Recovery that was stopped after any number of writes and started again, on the same log, ends in
        the image that one recovery from the first image would have made. */
    method ReplayAgain(ghost first: Image, ghost m0: nat, ghost n: nat) returns (status: Status)
      requires journal.Mounted() && Shows(null) && revoked == map[] && !Returns(journal, Scanning)
      requires forall n: nat :: Ends(journal, Scanning, n) ==> Commits(journal, n) <= 0x8000_0000
      requires Ends(journal, Scanning, m0) && n <= |Full(journal, m0)|
      requires client == Applied(first, Full(journal, m0)[..n], Full(journal, m0))
      modifies this`client, this`freed, this`revoked, revokeTable, revokeTable.nodes
      ensures status == StopStatus(journal, Scanning, At(journal, m0))
      ensures status.Success? ==> RecoveredTo(Full(journal, m0), first, client)
      ensures status.Success? ==> client == Applied(first, Full(journal, m0), Full(journal, m0))
    {
      hide *;
      ghost var m;
      status, m := ReplayJournal();
      EndsOnce(journal, Scanning, m0, m);
      FullFacts(journal, m0);
      HistoryOrder(journal, Committed(journal, m0));
      Restartable(Full(journal, m0), first, n);
      AppliedRecovers(first, Full(journal, m0));
    }

    // ----- Deviations -----

    /** The scan ends at a block that makes it fail. */
    ghost predicate ScanMayFail()
      requires journal.Mounted()
    {
      exists m: nat :: Ends(journal, Scanning, m) && !StopStatus(journal, Scanning, At(journal, m)).Success?
    }

    /** A later pass that is told to end at number zero ends, with all transactions within reach. */
    ghost predicate ZeroPassEnds()
      requires journal.Mounted()
    {
      !Returns(journal, Later(0)) && forall n: nat :: Ends(journal, Later(0), n) ==> InReach(journal, n)
    }

    /** jbd2_replay_journal as written, with its status tests the wrong way round and the record of the
        scan cleared before each pass. After a good scan it leaves at once: that is recovery exactly when
        replaying the committed part would change nothing. After a failed scan it goes on, with zero as
        the end of the later passes. When the revoke pass ends well, as it does at once when the first
        number is positive as a signed one, the failure is reported as success and nothing is replayed.
        Otherwise replay writes what it finds up to the same place l, committed or not, and fails. */
    method ReplayJournalAsWritten() returns (status: Status, ghost m: nat, ghost l: nat, ghost n: nat)
      requires journal.Mounted() && Shows(null) && revoked == map[] && !Returns(journal, Scanning)
      requires ScanMayFail() ==> ZeroPassEnds()
      modifies this`client, this`freed, this`revoked, revokeTable, revokeTable.nodes
      ensures Ends(journal, Scanning, m) && Shows(null) && revokeTable.nodes == {}
      ensures StopStatus(journal, Scanning, At(journal, m)).Success? ==>
                && status.Success? && client == old(client)
                && var h := Full(journal, m);
                   RecoveredTo(h, old(client), client) <==> Applied(old(client), h, h) == old(client)
      ensures !StopStatus(journal, Scanning, At(journal, m)).Success? ==>
                && Ends(journal, Later(0), l) && status == StopStatus(journal, Later(0), At(journal, l))
                && (status.Success? ==> client == old(client))
                && (!status.Success? ==>
                      && n <= |History(journal, l)|
                      && client == Applied(old(client), History(journal, l)[..n], History(journal, l))
                      && (n == |History(journal, l)| || status == IoError))
      ensures 0 < journal.sequence < 0x8000_0000 ==> status.Success? && client == old(client)
    {
      hide *;
      PassEndsIff(journal, Scanning);
      m :| Ends(journal, Scanning, m);
      l, n := 0, 0;
      var info;
      ghost var k;
      ghost var first := client;
      Kinds(m, 0, first);
      status, info, k := ReplayOnePass(Scan, RecoveryInfo(0, 0, false), m);
      Scanned(m, info, k, first);
      if !status.Success? {
        l := ZeroPass(m);
        Kinds(m, l, first);
        status, info, k := ReplayOnePass(ScanRevoke, RecoveryInfo(0, 0, false), l);
        TableBuilt(Trip(ScanRevoke, 0, l, first), info, k);
        if !status.Success? {
          status, info, n := ReplayOnePass(Replay, RecoveryInfo(0, 0, false), l);
          ReplayedSome(Trip(Replay, 0, l, first), info, n);
        }
      }
      var _ := RevokeTableClear();
      HistoryOrder(journal, Committed(journal, m));
      FullFacts(journal, m);
      NothingDoneIff(Full(journal, m), first);
    }

    lemma ZeroPass(m: nat) returns (l: nat)
      requires journal.Mounted() && Ends(journal, Scanning, m)
      requires !StopStatus(journal, Scanning, At(journal, m)).Success?
      requires ScanMayFail() ==> ZeroPassEnds()
      ensures Ends(journal, Later(0), l) && InReach(journal, l)
      ensures 0 < journal.sequence < 0x8000_0000 ==> StopStatus(journal, Later(0), At(journal, l)).Success?
    {
      hide Ends, Returns, StopStatus, InReach, At;
      assert ScanMayFail() && ZeroPassEnds();
      PassEndsIff(journal, Later(0));
      l :| Ends(journal, Later(0), l);
      if 0 < journal.sequence < 0x8000_0000 {
        LaterPassSkipsAll(journal);
        EndsOnce(journal, Later(0), 0, l);
      }
    }

    lemma Kinds(m: nat, l: nat, before: Image)
      ensures Trip(Scan, 0, m, before).Kind() == Scanning
      ensures Trip(ScanRevoke, 0, l, before).Kind() == Later(0) == Trip(Replay, 0, l, before).Kind()
    {}

    lemma ReplayedSome(g: Trip, info: RecoveryInfo, n: nat)
      requires journal.Mounted() && g.phase.Replay? && Done(g, info, n)
      ensures var h := History(journal, g.lim);
        && Shows(null) && n <= |h| && client == Applied(g.before, h[..n], h)
        && (n == |h| || StopStatus(journal, g.Kind(), At(journal, g.lim)) == IoError)
    {
      hide Shows, TableFor, Applied, StopStatus, At;
    }

    /** jbd2_revoke_entry_get as written takes the null result of RB_INSERT for an entry that was
        there: for a block without an entry it frees the node it has just linked and goes on with a
        null pointer. It works exactly for the blocks that have an entry. */
    method RevokeEntryGetAsWritten(block: Block) returns (re: Shape.Node?)
      requires Shows(null)
      modifies this`freed, revokeTable, revokeTable.nodes
      ensures re == null <==> block !in revoked
      ensures re != null ==> Shows(re) && re.block == block && revokeTable.nodes == old(revokeTable.nodes)
      ensures re == null ==> exists n :: n in revokeTable.nodes && n in freed
    {
      hide RedBlackTree.Table.Valid, RedBlackTree.Table.Links, StandFor;
      ghost var states := Entries();
      EntryOf(states, revoked, null, block);
      var tmp := new Shape.Node(block);
      re := revokeTable.Insert(tmp);
      freed := freed + [tmp];
      assert tmp in freed;
      if re != null {
        assert Entries() == states;
        TakeKnown(re);
      }
    }
  }
}
