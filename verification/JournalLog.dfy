/** The walk of jbd2_replay_one_pass over the circular log, and what the log says.

    A place is a block of the log with the transaction number expected there. The scan goes from
    place to place as long as the blocks are good; it ends at the first one that is not. The
    committed part of the log is the part of the walk up to its last commit block.
  */
module JournalLog {
  import opened JournalFormat

  datatype Status = Success | IoError | Corrupt | Unsuccessful

  datatype Place = Place(block: nat, tid: Tid)

  /** The contents of a log block; nothing behind the end of the log file. */
  function Data(j: Journal, p: nat): Bytes { if p < |j.log| then j.log[p] else [] }

  function Magic(b: Bytes): nat
    requires |b| >= 12
  {
    Be32(b, 0)
  }

  function BlockType(b: Bytes): nat
    requires |b| >= 12
  {
    Be32(b, 4)
  }

  function Sequence(b: Bytes): Tid
    requires |b| >= 12
  {
    Be32(b, 8)
  }

  /** jbd2_verify_metadata_block, and the expected transaction number. */
  predicate Matches(b: Bytes, tid: Tid)
    requires |b| >= 12
  {
    Magic(b) == MAGIC && 1 <= BlockType(b) <= REVOKE && Sequence(b) == tid
  }

  /** A block whose checksum is looked at. */
  predicate Checked(b: Bytes)
    requires |b| >= 12
  {
    BlockType(b) == DESCRIPTOR || BlockType(b) == COMMIT || BlockType(b) == REVOKE
  }

  /** The header of the block is the expected one and its checksum is right. */
  predicate Readable(j: Journal, s: Place)
    requires j.Mounted()
  {
    s.block < |j.log| && Matches(j.log[s.block], s.tid) && (Checked(j.log[s.block]) ==> j.verifies(j.log[s.block]))
  }

  /** The scan also looks at the checksums of the data blocks behind a descriptor. */
  predicate Good(j: Journal, s: Place)
    requires j.Mounted()
  {
    Readable(j, s) && (BlockType(j.log[s.block]) == DESCRIPTOR ==> j.dataVerifies(s.block, j.log[s.block]))
  }

  /** The scan, and a later pass up to the transaction with the given number. */
  datatype Pass = Scanning | Later(end: Tid)

  /** A pass goes on behind this place. */
  predicate GoesOn(j: Journal, pass: Pass, s: Place)
    requires j.Mounted()
  {
    match pass
    case Scanning => Good(j, s)
    case Later(end) => TidCmp(s.tid, end) <= 0 && Readable(j, s)
  }

  /** What a pass reports at the place where it does not go on. */
  function StopStatus(j: Journal, pass: Pass, s: Place): Status
    requires j.Mounted()
  {
    match pass
    case Scanning =>
      if s.block >= |j.log| then IoError else if !Readable(j, s) then Success else Unsuccessful
    case Later(end) =>
      if TidCmp(s.tid, end) > 0 then Success else if s.block >= |j.log| then IoError else Corrupt
  }

  /** The tags of a descriptor block: they start behind the 12 bytes of the common header. */
  function TagsOf(j: Journal, p: nat): seq<Tag>
    requires j.Mounted() && p < |j.log|
  {
    Tags(j, j.log[p], 12)
  }

  /** The next metadata block. Blocks of the types 3 and 4 make no progress. */
  function After(j: Journal, p: nat): nat
    requires j.Mounted()
  {
    if p >= |j.log| then p
    else if BlockType(j.log[p]) == DESCRIPTOR then j.Wrap(p + |TagsOf(j, p)| + 1)
    else if BlockType(j.log[p]) == COMMIT || BlockType(j.log[p]) == REVOKE then j.Wrap(p + 1)
    else p
  }

  predicate CommitsAt(j: Journal, p: nat)
    requires j.Mounted()
  {
    p < |j.log| && BlockType(j.log[p]) == COMMIT
  }

  function Next(j: Journal, s: Place): Place
    requires j.Mounted()
  {
    Place(After(j, s.block), if CommitsAt(j, s.block) then (s.tid + 1) % TID_LIMIT else s.tid)
  }

  /** The place after n steps. */
  ghost function At(j: Journal, n: nat): Place
    requires j.Mounted()
  {
    if n == 0 then Place(j.start, j.sequence) else Next(j, At(j, n - 1))
  }

  /** A pass gets through its first n places. */
  ghost predicate Runs(j: Journal, pass: Pass, n: nat)
    requires j.Mounted()
  {
    forall i: nat :: i < n ==> GoesOn(j, pass, At(j, i))
  }

  /** A pass ends at place n. */
  ghost predicate Ends(j: Journal, pass: Pass, n: nat)
    requires j.Mounted()
  {
    Runs(j, pass, n) && !GoesOn(j, pass, At(j, n))
  }

  /** The commit blocks among the first n places. */
  ghost function Commits(j: Journal, n: nat): nat
    requires j.Mounted()
  {
    if n == 0 then 0 else Commits(j, n - 1) + if CommitsAt(j, At(j, n - 1).block) then 1 else 0
  }

  // ----- The walk -----

  /** The lowest block of the log that the walk can come to. */
  function Lowest(j: Journal): nat { if j.start < j.first then j.start else j.first }

  /** Transaction numbers are consecutive along the walk. */
  lemma {:induction false} Consecutive(j: Journal, n: nat)
    requires j.Mounted()
    ensures At(j, n).tid == TidOf(j.sequence + Commits(j, n)) && Lowest(j) <= At(j, n).block && Commits(j, n) <= n
  {
    hide After, CommitsAt, TidOf, Lowest, Journal.Mounted;
    if n > 0 {
      Consecutive(j, n - 1);
      AfterLowest(j, At(j, n - 1).block);
      NextTid(j.sequence + Commits(j, n - 1));
      assert At(j, n) == Next(j, At(j, n - 1));
    } else {
      StartFacts(j);
    }
  }

  lemma StartFacts(j: Journal)
    requires j.Mounted()
    ensures Lowest(j) <= j.start <= j.last && TidOf(j.sequence) == j.sequence
  {}

  lemma NextTid(n: nat)
    ensures (TidOf(n) + 1) % TID_LIMIT == TidOf(n + 1)
  {}

  lemma AfterLowest(j: Journal, p: nat)
    requires j.Mounted() && Lowest(j) <= p
    ensures Lowest(j) <= After(j, p)
  {
    hide Tags;
  }

  lemma {:induction false} CommitsGrow(j: Journal, i: nat, n: nat)
    requires j.Mounted() && i <= n
    ensures Commits(j, i) <= Commits(j, n) <= Commits(j, i) + n - i
  {
    hide At, CommitsAt, Journal.Mounted;
    if i < n {
      CommitsGrow(j, i, n - 1);
    }
  }

  /** A pass ends at most once. */
  lemma EndsOnce(j: Journal, pass: Pass, m: nat, n: nat)
    requires j.Mounted() && Ends(j, pass, m)
    ensures Runs(j, pass, n) <==> n <= m
    ensures Ends(j, pass, n) <==> n == m
  {}

  /** A readable block fixes the transaction number, so coming back to it is coming back to the place. */
  lemma SameBlock(j: Journal, pass: Pass, a: Place, b: Place)
    requires j.Mounted() && GoesOn(j, pass, a) && GoesOn(j, pass, b) && a.block == b.block
    ensures a == b
  {}

  lemma {:induction false} Periodic(j: Journal, i: nat, k: nat, n: nat)
    requires j.Mounted() && At(j, i) == At(j, k) && i <= k
    ensures At(j, i + n) == At(j, k + n)
  {
    hide Next, Journal.Mounted;
    if n > 0 {
      Periodic(j, i, k, n - 1);
      assert At(j, i + n) == Next(j, At(j, i + n - 1)) && At(j, k + n) == Next(j, At(j, k + n - 1));
    }
  }

  /** A pass that comes back goes on for ever. */
  lemma {:induction false} GoesRound(j: Journal, pass: Pass, i: nat, k: nat, n: nat)
    requires j.Mounted() && i < k && Runs(j, pass, k) && At(j, i) == At(j, k)
    ensures GoesOn(j, pass, At(j, n))
    decreases n
  {
    hide Next, At, GoesOn, Journal.Mounted;
    if n >= k {
      GoesRound(j, pass, i, k, n - (k - i));
      Periodic(j, i, k, n - k);
      assert i + (n - k) == n - (k - i) && k + (n - k) == n;
    }
  }

  /** A pass comes back to a block. */
  ghost predicate Returns(j: Journal, pass: Pass)
    requires j.Mounted()
  {
    exists i: nat, k: nat :: i < k && Runs(j, pass, k + 1) && At(j, i).block == At(j, k).block
  }

  /** The blocks of the first n places. */
  ghost function Visited(j: Journal, n: nat): set<nat>
    requires j.Mounted()
  {
    if n == 0 then {} else Visited(j, n - 1) + {At(j, n - 1).block}
  }

  lemma {:induction false} VisitedHas(j: Journal, n: nat, p: nat)
    requires j.Mounted()
    ensures p in Visited(j, n) ==> exists i: nat :: i < n && At(j, i).block == p
  {
    hide At, Journal.Mounted;
    if n > 0 {
      VisitedHas(j, n - 1, p);
    }
  }

  lemma {:induction false} VisitedCount(j: Journal, pass: Pass, n: nat)
    requires j.Mounted() && Runs(j, pass, n) && !Returns(j, pass)
    ensures |Visited(j, n)| == n && forall p :: p in Visited(j, n) ==> Lowest(j) <= p <= j.last
  {
    hide At, GoesOn, Lowest, Journal.Mounted;
    if n > 0 {
      VisitedCount(j, pass, n - 1);
      var p := At(j, n - 1).block;
      Consecutive(j, n - 1);
      assert GoesOn(j, pass, At(j, n - 1));
      GoodInside(j, pass, At(j, n - 1));
      if p in Visited(j, n - 1) {
        VisitedHas(j, n - 1, p);
      }
    }
  }

  lemma GoodInside(j: Journal, pass: Pass, s: Place)
    requires j.Mounted() && GoesOn(j, pass, s)
    ensures s.block < |j.log| && s.block <= j.last
  {}

  lemma {:induction false} Bounded(s: set<nat>, lo: nat, hi: nat)
    requires forall p :: p in s ==> lo <= p < hi
    ensures |s| <= if lo < hi then hi - lo else 0
    decreases hi
  {
    if s != {} {
      var x :| x in s;
      Bounded(s - {hi - 1}, lo, hi - 1);
    }
  }

  /** A pass that never comes back to a block visits each block at most once. */
  lemma StepsBounded(j: Journal, pass: Pass, n: nat)
    requires j.Mounted() && Runs(j, pass, n) && !Returns(j, pass)
    ensures n <= j.last - Lowest(j) + 1
  {
    VisitedCount(j, pass, n);
    Bounded(Visited(j, n), Lowest(j), j.last + 1);
  }

  lemma {:induction false} EndFound(j: Journal, pass: Pass, n: nat)
    requires j.Mounted() && !Runs(j, pass, n)
    ensures exists m: nat :: m < n && Ends(j, pass, m)
  {
    if Runs(j, pass, n - 1) {
      assert Ends(j, pass, n - 1);
    } else {
      EndFound(j, pass, n - 1);
    }
  }

  /** A pass ends exactly when it never comes back to a block of the log, and then after at most one
      lap (and the blocks before the log area, when the log starts there). */
  lemma PassEndsIff(j: Journal, pass: Pass)
    requires j.Mounted()
    ensures (exists m: nat :: Ends(j, pass, m)) <==> !Returns(j, pass)
    ensures forall m: nat :: Ends(j, pass, m) ==> m <= j.last - Lowest(j) + 1
  {
    hide GoesOn, Lowest;
    if Returns(j, pass) {
      var i: nat, k: nat :| i < k && Runs(j, pass, k + 1) && At(j, i).block == At(j, k).block;
      assert GoesOn(j, pass, At(j, i)) && GoesOn(j, pass, At(j, k));
      SameBlock(j, pass, At(j, i), At(j, k));
      forall m: nat ensures !Ends(j, pass, m) {
        GoesRound(j, pass, i, k, m);
      }
    } else {
      StartFacts(j);
      var n := j.last - Lowest(j) + 2;
      if Runs(j, pass, n) {
        StepsBounded(j, pass, n);
      }
      EndFound(j, pass, n);
      forall m: nat | Ends(j, pass, m) ensures m <= j.last - Lowest(j) + 1 {
        StepsBounded(j, pass, m);
      }
    }
  }

  /** A log that starts at a superblock, as it does when block 0 is the start of a journal that was
      closed cleanly: the scan ends at once, and well, when the number in the header of the superblock
      is not the one expected next; otherwise it never ends. */
  lemma ClosedJournal(j: Journal)
    requires j.Mounted()
    requires var b := j.log[j.start];
             Magic(b) == MAGIC && DESCRIPTOR < BlockType(b) < REVOKE && BlockType(b) != COMMIT
    ensures Returns(j, Scanning) <==> Sequence(j.log[j.start]) == j.sequence
    ensures Sequence(j.log[j.start]) != j.sequence ==>
              Ends(j, Scanning, 0) && StopStatus(j, Scanning, At(j, 0)) == Success && Committed(j, 0) == 0
  {
    hide Be32, Lowest, Tags;
    PassEndsIff(j, Scanning);
    if Sequence(j.log[j.start]) == j.sequence {
      assert At(j, 1) == Next(j, At(j, 0)) == At(j, 0);
      assert Runs(j, Scanning, 2) by {
        forall i: nat | i < 2 ensures GoesOn(j, Scanning, At(j, i)) {
          assert i == 0 || i == 1;
        }
      }
    } else {
      assert Ends(j, Scanning, 0);
    }
  }

  lemma SameTid(a: nat, b: nat)
    requires TidOf(a) == TidOf(b) && a <= b < a + TID_LIMIT
    ensures a == b
  {
    ModDifference(b, a);
    assert (b - a) % TID_LIMIT == 0;
  }

  /** A lap on which the walk comes back has no commit block on it. */
  lemma LapHasNoCommit(j: Journal, i: nat, k: nat)
    requires j.Mounted() && i < k && At(j, i) == At(j, k) && k - i < TID_LIMIT
    ensures Commits(j, i) == Commits(j, k)
  {
    hide At, Commits, TidOf, Journal.Mounted;
    Consecutive(j, i);
    Consecutive(j, k);
    CommitsGrow(j, i, k);
    SameTid(j.sequence + Commits(j, i), j.sequence + Commits(j, k));
  }

  // ----- The committed part -----

  /** The number of places up to the last commit block among the first n. */
  ghost function Committed(j: Journal, n: nat): (c: nat)
    requires j.Mounted()
    ensures c <= n
  {
    if n == 0 then 0 else if CommitsAt(j, At(j, n - 1).block) then n else Committed(j, n - 1)
  }

  lemma {:induction false} CommittedCommits(j: Journal, n: nat)
    requires j.Mounted()
    ensures Commits(j, Committed(j, n)) == Commits(j, n)
    ensures forall i: nat :: i < Committed(j, n) ==> Commits(j, i) < Commits(j, n)
    ensures Committed(j, n) == 0 <==> Commits(j, n) == 0
  {
    hide At, CommitsAt, Journal.Mounted;
    if n > 0 {
      CommittedCommits(j, n - 1);
      if CommitsAt(j, At(j, n - 1).block) {
        forall i: nat | i < n ensures Commits(j, i) < Commits(j, n) {
          CommitsGrow(j, i, n - 1);
        }
      }
    }
  }

  lemma {:induction false} CommittedLast(j: Journal, n: nat)
    requires j.Mounted() && Committed(j, n) > 0
    ensures CommitsAt(j, At(j, Committed(j, n) - 1).block)
  {
    hide At, CommitsAt, Journal.Mounted;
    if !CommitsAt(j, At(j, n - 1).block) {
      CommittedLast(j, n - 1);
    }
  }

  /** The number of the last committed transaction. */
  ghost function EndTid(j: Journal, n: nat): Tid
    requires j.Mounted() && Commits(j, n) > 0
  {
    TidOf(j.sequence + Commits(j, n) - 1)
  }

  /** With at most 2^31 committed transactions, the test that ends a later pass is false exactly at
      the places of the committed part. */
  lemma LaterPassStops(j: Journal, n: nat, i: nat)
    requires j.Mounted() && 0 < Commits(j, n) <= 0x8000_0000 && i <= Committed(j, n)
    ensures TidCmp(At(j, i).tid, EndTid(j, n)) > 0 <==> i == Committed(j, n)
  {
    hide At, Commits, Committed, TidOf, TidCmp, Journal.Mounted;
    CommittedCommits(j, n);
    Consecutive(j, i);
    CommitsGrow(j, i, Committed(j, n));
    SerialOrder(j.sequence + Commits(j, i), j.sequence + Commits(j, n) - 1);
  }

  /** A pass goes through exactly the committed part of a log whose scan ends at place m. */
  ghost predicate VisitsCommitted(j: Journal, pass: Pass, m: nat)
    requires j.Mounted()
  {
    Ends(j, pass, Committed(j, m)) && StopStatus(j, pass, At(j, Committed(j, m))).Success?
  }

  /** A later pass that is told the last committed transaction goes through exactly the committed part. */
  lemma LaterPassVisits(j: Journal, m: nat)
    requires j.Mounted() && Ends(j, Scanning, m) && 0 < Commits(j, m) <= 0x8000_0000
    ensures VisitsCommitted(j, Later(EndTid(j, m)), m)
  {
    hide At, Readable, Committed, Commits, EndTid, TidCmp, Journal.Mounted;
    forall i: nat | i <= Committed(j, m)
      ensures GoesOn(j, Later(EndTid(j, m)), At(j, i)) <==> i < Committed(j, m)
    {
      LaterPassStops(j, m, i);
      if i < Committed(j, m) {
        assert GoesOn(j, Scanning, At(j, i));
      }
    }
    LaterPassStops(j, m, Committed(j, m));
  }

  /** As written, every pass clears the record of the scan, and nobody asks whether there was a
      transaction at all: the end of the later passes is always number zero. They are right exactly
      when zero is the number of the last committed transaction, or when there is none and the first
      number is positive as a signed one. */
  lemma LaterPassAsWrittenIff(j: Journal, m: nat)
    requires j.Mounted() && Ends(j, Scanning, m) && Commits(j, m) <= 0x8000_0000
    ensures VisitsCommitted(j, Later(0), m) <==>
            if Commits(j, m) == 0 then 0 < j.sequence < 0x8000_0000 else EndTid(j, m) == 0
  {
    hide Readable, At, Commits, Journal.Mounted;
    CommittedCommits(j, m);
    var c := Committed(j, m);
    Consecutive(j, c);
    if c == 0 {
      StartFacts(j);
    } else {
      if EndTid(j, m) == 0 {
        LaterPassVisits(j, m);
      }
      LastCommitTids(j, m);
      if VisitsCommitted(j, Later(0), m) {
        assert GoesOn(j, Later(0), At(j, c - 1));
      }
    }
  }

  /** The numbers expected at the last commit block and behind it. */
  lemma LastCommitTids(j: Journal, m: nat)
    requires j.Mounted() && Committed(j, m) > 0 && Commits(j, m) > 0
    ensures var c := Committed(j, m);
      && At(j, c - 1).tid == EndTid(j, m) && At(j, c).tid == (EndTid(j, m) + 1) % TID_LIMIT
  {
    hide At, CommitsAt, TidOf, Committed, Journal.Mounted;
    var c := Committed(j, m);
    CommittedCommits(j, m);
    CommittedLast(j, m);
    Consecutive(j, c);
    Consecutive(j, c - 1);
    assert Commits(j, c) == Commits(j, c - 1) + 1;
    NextTid(j.sequence + Commits(j, m) - 1);
  }

  /** A later pass as written that starts at a positive number visits nothing, and takes that for
      success. */
  lemma LaterPassSkipsAll(j: Journal)
    requires j.Mounted() && 0 < j.sequence < 0x8000_0000
    ensures Ends(j, Later(0), 0) && StopStatus(j, Later(0), At(j, 0)).Success?
  {}

  // ----- Data blocks on the circle -----

  /** The block of the log with the data of tag number i. */
  function DataPlace(j: Journal, p: nat, i: nat): nat
    requires j.Mounted()
  {
    j.Wrap(p + 1 + i)
  }

  /** If the log goes on inside the log file behind a descriptor, so do its data blocks. */
  lemma DataInside(j: Journal, p: nat, i: nat)
    requires j.Mounted() && Lowest(j) <= p < |j.log| && BlockType(j.log[p]) == DESCRIPTOR && i < |TagsOf(j, p)|
    requires After(j, p) < |j.log|
    ensures Lowest(j) <= DataPlace(j, p, i) <= j.last
  {
    hide Tags;
  }

  /** Replay as written does not wrap the numbers of data blocks: every one is right exactly when the
      last of them lies before the end of the log area. */
  lemma UnwrappedIff(j: Journal, p: nat, n: nat)
    requires j.Mounted() && n > 0
    ensures (forall i: nat :: i < n ==> DataPlace(j, p, i) == p + 1 + i) <==> p + n <= j.last
  {
    assert p + n > j.last ==> DataPlace(j, p, n - 1) != p + 1 + (n - 1);
  }
}
