/** What recovery has to do, as a statement about the history the log records: every block of the
    client gets its last write that no equal or later transaction revokes, and all other blocks
    keep their contents.
  */
module JournalHistory {
  import opened JournalFormat
  import opened JournalLog

  /** The contents of the blocks of the client file. */
  type Image = map<Block, Bytes>

  /** One entry of the log; txn counts the transactions from the start of the log. */
  datatype Record = Write(txn: nat, block: Block, data: Bytes) | Revoke(txn: nat, block: Block)

  // ----- The history of a log -----

  ghost function DescrRecords(j: Journal, p: nat, txn: nat): seq<Record>
    requires j.Mounted() && p < |j.log|
  {
    var tags := TagsOf(j, p);
    seq(|tags|, i requires 0 <= i < |tags| =>
      Write(txn, TagBlock(tags[i]), Restored(Data(j, DataPlace(j, p, i)), tags[i].Escaped())))
  }

  ghost function RevokeRecords(blocks: seq<Block>, txn: nat): seq<Record> {
    seq(|blocks|, i requires 0 <= i < |blocks| => Revoke(txn, blocks[i]))
  }

  ghost function RecordsAt(j: Journal, p: nat, txn: nat): seq<Record>
    requires j.Mounted()
  {
    if p >= |j.log| then []
    else if BlockType(j.log[p]) == DESCRIPTOR then DescrRecords(j, p, txn)
    else if BlockType(j.log[p]) == REVOKE then RevokeRecords(RevokedBlocks(j, j.log[p]), txn)
    else []
  }

  /** The entries of the first n places of the walk. */
  ghost function History(j: Journal, n: nat): seq<Record>
    requires j.Mounted()
  {
    if n == 0 then [] else History(j, n - 1) + RecordsAt(j, At(j, n - 1).block, Commits(j, n - 1))
  }

  /** Transactions come in order. */
  ghost predicate Chronological(h: seq<Record>) {
    forall i, k :: 0 <= i < k < |h| ==> h[i].txn <= h[k].txn
  }

  lemma {:induction false} HistoryOrder(j: Journal, n: nat)
    requires j.Mounted()
    ensures Chronological(History(j, n))
    ensures forall r :: r in History(j, n) ==> r.txn <= Commits(j, n)
  {
    hide RecordsAt, Commits, At, Journal.Mounted;
    if n > 0 {
      HistoryOrder(j, n - 1);
      CommitsGrow(j, n - 1, n);
      RecordsAtTxn(j, At(j, n - 1).block, Commits(j, n - 1));
      var a, b := History(j, n - 1), RecordsAt(j, At(j, n - 1).block, Commits(j, n - 1));
      assert History(j, n) == a + b;
      forall i | 0 <= i < |a| + |b| ensures (a + b)[i] in a || (a + b)[i] in b {}
    }
  }

  lemma RecordsAtTxn(j: Journal, p: nat, txn: nat)
    requires j.Mounted()
    ensures forall r :: r in RecordsAt(j, p, txn) ==> r.txn == txn
  {
    hide TagsOf, TagBlock, Data, Restored, RevokedBlocks, BlockType;
  }

  /** Every entry of the committed part belongs to a committed transaction. */
  lemma {:induction false} HistoryCommitted(j: Journal, n: nat, i: nat)
    requires j.Mounted() && i <= Committed(j, n)
    ensures forall r :: r in History(j, i) ==> r.txn < Commits(j, n)
  {
    hide RecordsAt, Commits, At, Committed, Journal.Mounted;
    if i > 0 {
      HistoryCommitted(j, n, i - 1);
      CommittedCommits(j, n);
      RecordsAtTxn(j, At(j, i - 1).block, Commits(j, i - 1));
    }
  }

  // ----- The meaning of a history -----

  /** Entry i is a write that no equal or later transaction revokes. */
  ghost predicate Live(h: seq<Record>, i: nat) {
    && i < |h| && h[i].Write?
    && forall k :: 0 <= k < |h| && h[k].Revoke? && h[k].block == h[i].block ==> h[k].txn < h[i].txn
  }

  ghost predicate LastLive(h: seq<Record>, i: nat) {
    Live(h, i) && forall k: nat :: i < k && Live(h, k) ==> h[k].block != h[i].block
  }

  ghost predicate Untouched(h: seq<Record>, b: Block) {
    forall i: nat :: Live(h, i) ==> h[i].block != b
  }

  ghost predicate SameAt(x: Image, y: Image, b: Block) {
    (b in x <==> b in y) && (b in x ==> x[b] == y[b])
  }

  /** What recovery promises. */
  ghost predicate RecoveredTo(h: seq<Record>, before: Image, after: Image) {
    && (forall i: nat :: LastLive(h, i) ==> h[i].block in after && after[h[i].block] == h[i].data)
    && (forall b: Block :: Untouched(h, b) ==> SameAt(before, after, b))
  }

  /** The latest transaction of h that revokes b, or -1. */
  ghost function LatestRevoke(h: seq<Record>, b: Block): (t: int)
    ensures t >= -1
    decreases |h|
  {
    if h == [] then -1
    else if h[|h| - 1].Revoke? && h[|h| - 1].block == b then h[|h| - 1].txn
    else LatestRevoke(h[..|h| - 1], b)
  }

  lemma LatestOfMore(h: seq<Record>, r: Record, b: Block)
    ensures LatestRevoke(h + [r], b) == if r.Revoke? && r.block == b then r.txn else LatestRevoke(h, b)
  {
    assert (h + [r])[..|h|] == h;
  }

  lemma {:induction false} LatestIsGreatest(h: seq<Record>, b: Block)
    requires Chronological(h)
    ensures forall k :: 0 <= k < |h| && h[k].Revoke? && h[k].block == b ==> h[k].txn <= LatestRevoke(h, b)
    ensures LatestRevoke(h, b) >= 0 ==>
        exists k :: 0 <= k < |h| && h[k].Revoke? && h[k].block == b && h[k].txn == LatestRevoke(h, b)
    decreases |h|
  {
    if h != [] {
      LatestIsGreatest(h[..|h| - 1], b);
    }
  }

  /** A look at the latest revoke decides whether a write is live. */
  lemma LiveIff(h: seq<Record>, i: nat)
    requires Chronological(h) && i < |h| && h[i].Write?
    ensures Live(h, i) <==> LatestRevoke(h, h[i].block) < h[i].txn
  {
    LatestIsGreatest(h, h[i].block);
  }

  // ----- Replay -----

  /** One entry replayed, given the whole history of the log. */
  ghost function Stored(c: Image, r: Record, full: seq<Record>): Image {
    if r.Write? && LatestRevoke(full, r.block) < r.txn then c[r.block := r.data] else c
  }

  /** The entries of h replayed in order. */
  ghost function Applied(c: Image, h: seq<Record>, full: seq<Record>): Image
    decreases |h|
  {
    if h == [] then c else Stored(Applied(c, h[..|h| - 1], full), h[|h| - 1], full)
  }

  lemma AppliedNone(c: Image, full: seq<Record>)
    ensures Applied(c, [], full) == c
  {}

  lemma AppliedMore(c: Image, h: seq<Record>, r: Record, full: seq<Record>)
    ensures Applied(c, h + [r], full) == Stored(Applied(c, h, full), r, full)
  {
    assert (h + [r])[..|h|] == h;
  }

  lemma {:induction false} AppliedJoin(c: Image, a: seq<Record>, b: seq<Record>, full: seq<Record>)
    ensures Applied(c, a + b, full) == Applied(Applied(c, a, full), b, full)
    decreases |b|
  {
    if b == [] {
      assert a + b == a;
    } else {
      var b', r := b[..|b| - 1], b[|b| - 1];
      AppliedJoin(c, a, b', full);
      assert a + b == (a + b') + [r] && b == b' + [r];
      AppliedMore(c, a + b', r, full);
      AppliedMore(Applied(c, a, full), b', r, full);
    }
  }

  /** After the first n entries a block holds its last live write among them, or what it held. */
  lemma {:induction false} AppliedAt(c: Image, h: seq<Record>, n: nat, b: Block)
    requires Chronological(h) && n <= |h|
    ensures var c' := Applied(c, h[..n], h);
      (SameAt(c, c', b) && forall i: nat :: i < n && Live(h, i) ==> h[i].block != b)
      || exists i: nat :: i < n && Live(h, i) && h[i].block == b && b in c' && c'[b] == h[i].data
                          && forall k: nat :: i < k < n && Live(h, k) ==> h[k].block != b
  {
    hide Live, LatestRevoke;
    if n > 0 {
      AppliedAt(c, h, n - 1, b);
      assert h[..n] == h[..n - 1] + [h[n - 1]];
      AppliedMore(c, h[..n - 1], h[n - 1], h);
      if h[n - 1].Write? {
        LiveIff(h, n - 1);
      } else {
        NotLive(h, n - 1);
      }
    }
  }

  lemma NotLive(h: seq<Record>, i: nat)
    requires i < |h| && h[i].Revoke?
    ensures !Live(h, i)
  {}

  /** Replay keeps the promise. */
  lemma AppliedRecovers(c: Image, h: seq<Record>)
    requires Chronological(h)
    ensures RecoveredTo(h, c, Applied(c, h, h))
  {
    hide Live, LatestRevoke, Applied;
    assert h[..|h|] == h;
    LiveInside(h);
    forall i: nat | LastLive(h, i) ensures h[i].block in Applied(c, h, h) && Applied(c, h, h)[h[i].block] == h[i].data {
      AppliedAt(c, h, |h|, h[i].block);
    }
    forall b: Block | Untouched(h, b) ensures SameAt(c, Applied(c, h, h), b) {
      AppliedAt(c, h, |h|, b);
    }
  }

  lemma LiveInside(h: seq<Record>)
    ensures forall i: nat :: Live(h, i) ==> i < |h| && h[i].Write?
  {}

  /** The promise determines the image. */
  lemma RecoveredUnique(h: seq<Record>, c: Image, x: Image, y: Image)
    requires Chronological(h) && RecoveredTo(h, c, x) && RecoveredTo(h, c, y)
    ensures x == y
  {
    hide Live, LastLive, Untouched;
    forall b: Block ensures SameAt(x, y, b) {
      LastOrNone(c, h, b);
    }
    SameEverywhere(x, y);
  }

  lemma SameEverywhere(x: Image, y: Image)
    requires forall b: Block :: SameAt(x, y, b)
    ensures x == y
  {
    forall b: Block ensures b in x <==> b in y {
      assert SameAt(x, y, b);
    }
    forall b: Block | b in x ensures x[b] == y[b] {
      assert SameAt(x, y, b);
    }
    assert x.Keys == y.Keys;
  }

  lemma LastOrNone(c: Image, h: seq<Record>, b: Block)
    requires Chronological(h)
    ensures Untouched(h, b) || exists i: nat :: LastLive(h, i) && h[i].block == b
  {
    hide Live, LatestRevoke, Applied;
    LiveInside(h);
    AppliedAt(c, h, |h|, b);
    if i: nat :| i < |h| && Live(h, i) && h[i].block == b && forall k: nat :: i < k < |h| && Live(h, k) ==>
      h[k].block != b {
      assert LastLive(h, i);
    }
  }

  // ----- Restart -----

  /** Two images that differ only at blocks with a live write. */
  ghost predicate AgreeOutside(h: seq<Record>, x: Image, y: Image) {
    forall b: Block :: Untouched(h, b) ==> SameAt(x, y, b)
  }

  /** Recovery from another image ends in the same image exactly when the two differ only at blocks
      with a live write, whatever those blocks hold. */
  lemma RestartIff(h: seq<Record>, c: Image, partial: Image)
    requires Chronological(h)
    ensures Applied(partial, h, h) == Applied(c, h, h) <==> AgreeOutside(h, c, partial)
  {
    hide Untouched, Applied, LastLive;
    AppliedRecovers(c, h);
    AppliedRecovers(partial, h);
    if AgreeOutside(h, c, partial) {
      assert RecoveredTo(h, c, Applied(partial, h, h));
      RecoveredUnique(h, c, Applied(partial, h, h), Applied(c, h, h));
    }
  }

  /** A replay stopped after any number of entries can be run again from the image it left. */
  lemma Restartable(h: seq<Record>, c: Image, n: nat)
    requires Chronological(h) && n <= |h|
    ensures Applied(Applied(c, h[..n], h), h, h) == Applied(c, h, h)
  {
    hide Live, LatestRevoke, Applied;
    forall b: Block | Untouched(h, b) ensures SameAt(c, Applied(c, h[..n], h), b) {
      AppliedAt(c, h, n, b);
    }
    RestartIff(h, c, Applied(c, h[..n], h));
  }

  /** Doing nothing is recovery exactly when replaying the history would change nothing. */
  lemma NothingDoneIff(h: seq<Record>, c: Image)
    requires Chronological(h)
    ensures RecoveredTo(h, c, c) <==> Applied(c, h, h) == c
  {
    hide RecoveredTo, Applied;
    AppliedRecovers(c, h);
    if RecoveredTo(h, c, c) {
      RecoveredUnique(h, c, c, Applied(c, h, h));
    }
  }

  /** That is so for a history without a live write, such as that of a log without descriptor blocks
      in its committed part. */
  lemma NothingToDo(h: seq<Record>, c: Image)
    requires Chronological(h) && forall i: nat :: !Live(h, i)
    ensures Applied(c, h, h) == c
  {
    hide Applied, Live;
    AppliedRecovers(c, h);
    forall b: Block ensures SameAt(c, Applied(c, h, h), b) {
      assert Untouched(h, b);
    }
    SameEverywhere(c, Applied(c, h, h));
  }

  // ----- The images a replay goes through -----

  lemma {:induction false} HistoryPrefix(j: Journal, i: nat, n: nat)
    requires j.Mounted() && i <= n
    ensures |History(j, i)| <= |History(j, n)| && History(j, n)[..|History(j, i)|] == History(j, i)
  {
    hide RecordsAt, At, Commits, Journal.Mounted;
    if i < n {
      HistoryPrefix(j, i, n - 1);
    }
  }

  /** Whenever a replay stops, in the middle of a descriptor block or between two blocks, it has
      replayed a prefix of the whole history. */
  lemma PartialImage(j: Journal, c: Image, i: nat, k: nat, n: nat)
    requires j.Mounted() && i < n && k <= |RecordsAt(j, At(j, i).block, Commits(j, i))|
    ensures var full := History(j, n); var here := RecordsAt(j, At(j, i).block, Commits(j, i))[..k];
      && |History(j, i)| + k <= |full|
      && Applied(Applied(c, History(j, i), full), here, full) == Applied(c, full[..|History(j, i)| + k], full)
  {
    hide RecordsAt, At, Commits, Applied, Journal.Mounted;
    var full, h, recs := History(j, n), History(j, i), RecordsAt(j, At(j, i).block, Commits(j, i));
    HistoryPrefix(j, i + 1, n);
    assert History(j, i + 1) == h + recs;
    assert full[..|h| + k] == (h + recs)[..|h| + k] == h + recs[..k];
    AppliedJoin(c, h, recs[..k], full);
  }
}
