# Verification of ext4fsd

A Dafny model of the parts of the ext4fsd driver that carry its data-structure and protocol logic,
with proofs of what they promise:

- the extent B+ tree of `ext4_extent.c`: lookup, insertion with leaf-to-root splitting and root
  growth, range removal with its up-and-down walk, and conversion of unwritten blocks. The tree
  stands for one map, logical block to (physical block, written?), and every operation is proved
  against that map;
- the red-black and splay trees of `drv_tree.h`, as pointer structures in the heap;
- journal recovery in `jbd2.c`: three passes over a circular log with wrapping transaction numbers,
  proved to leave every client block as a statement about the log's history demands;
- the table-driven CRC of `drv_crc32.c`, proved to be division of polynomials over GF(2);
- the packed on-disk fields of `ext4_fs.h`.

## How the model is built

Code that changes things in place is a class whose methods change the same fields in the same order;
each method is tied to a ghost picture of the whole structure.

- Trees in the heap (`RedBlack*.dfy`, `Splay*.dfy`): `Shape` files define ghost trees, `Heap` lemmas
  relate a snapshot of the pointers to a picture (a subtree, and the context around it up to the
  root), and the class files hold the algorithms.
- Extents (`Extent*.dfy`): `ExtentMap` has lists of extents and the map they stand for; `ExtentShape`
  and `ExtentPlaces` have pictures of trees of blocks and search paths; `ExtentChanges`,
  `ExtentSplits`, `ExtentMerges`, `ExtentCuts`, `ExtentRemovals` and `ExtentConversions` say what a
  step does to the whole tree; `ExtentTree` has the operations. A tree block is a record with the
  header's depth and capacity and a sequence of entries; the store is a map from block numbers to
  tree blocks.
- The journal (`Journal*.dfy`): `JournalFormat` reads bytes; `JournalLog` is the walk over the log;
  `JournalHistory` is the history that a log records and what recovery owes to it;
  `JournalRecovery` has the revoke table and the passes.
- `Crc32` has the loop and `CrcPolynomial` what it means; `DiskEncoding` has the packed fields.
- What a contract says rests on the readers of fields that the operations use as well. Each of these is
  pinned by a statement in bits, bytes and numbers that does not use it: `ExtentMeaning` for extents and
  tree blocks, `JournalWriter` for the blocks of a log, `SplayPaths` for the shape of a splayed tree, and
  lemmas beside the packed fields and the checksum.

The main results, one line each:

- `RedBlackTree.Table.Insert` and `.Remove` keep order, parent links, colours and black heights on
  every tree, and change the set of nodes by exactly one node.
- `SplayTree.Head.Splay` keeps the in-order sequence and brings the sought key, or a neighbour of it,
  to the root; insertion and removal follow from that. Every node of the search path ends at about half
  its depth.
- `ExtentTree.Inode.InsertExtent`, without combining, adds exactly the new run to the map, through any
  number of splits and one new level; its second attempt never fails.
- `ExtentTree.Inode.RemoveSpace` maps exactly the old map outside the range and accounts for every
  data block and every tree block exactly once.
- `ExtentTree.Inode.ConvertToInitialized` changes the state of exactly the blocks asked for and no
  physical block.
- `JournalRecovery.Handle.ReplayJournal` leaves each client block with its last committed write that
  no equal or later transaction revokes, and all others untouched; `JournalHistory.RestartIff` says
  from which images recovery can be run again, and `JournalRecovery.Handle.ReplayAgain` that every image
  a replay goes through is one of them.
- `JournalWriter.RecoverWritten`: a log laid out byte by byte around the log area is recovered to what its
  committed units say.
- `JournalLog.PassEndsIff` says exactly on which logs a pass terminates, and `JournalLog.ClosedJournal`
  what that means for a log that starts at the superblock.
- `Crc32.BurstDetected` and `CrcPolynomial.DivideIsRemainder` say what the checksum is and detects.

## Where the code departs from its documentation

The repository is unfinished. Each departure below is modelled as it is written, beside the
documented behaviour, and a lemma says exactly when the written code is right.

| in the source | what it does | when it is right |
|---|---|---|
| `drv_types.h:10-17` | the names of signed and unsigned 16-, 32- and 64-bit types are swapped; the model reads the names by their meaning | `Crc32.DeclaredStepRightIff`; `XTime.DeclaredRoundTripIff`, with second -1 as the witness in `XTime.DeclaredLosesHalf` |
| `drv_crc32.c:152` | the table parameter is a pointer to `size_t`, the tables hold 32-bit words; the model reads words. With a 64-bit `size_t`, low word first, entry i is read at word 2i, and behind the table from entry 128 on | `Crc32.WideStepRightIff` |
| `ext4_extent.c:739-822` | merging does not compare the states of the extents | `ExtentMerges.AppendRightIff` |
| `ext4_extent.c:824-835` | prepending keeps the old physical start | `ExtentMerges.PrependNeverRight`: never |
| `ext4_extent.c:824-835` | prepending leaves the index keys above the leaf as they are | `ExtentSplits.MergedWhole`: the tree stays well formed exactly when the root is the leaf |
| `ext4_extent.c:1468-1473` | the middle conversion splits again with a path that now leads to the right-hand part; the model searches again | `ExtentConversions.MiddleAsWrittenWrong`: never; the extents overlap and the blocks are looked for elsewhere |
| `ext4_extent.c:1266-1272` | removal from a hole does nothing | `ExtentCuts.HoleRemovalIff` |
| `ext4_extent.c:1275-1299` | removal strictly inside an extent frees no block | never; stated in `ExtentTree.Inode.RemoveSpace` |
| `ext4_extent.c:1480-1508` | the next allocated block of a hole before the first extent is that of the second extent | `ExtentMap.NextFirstRightIff` |
| `jbd2.c:211-219` | a new revoke entry is looked for in the null result of `RB_INSERT`; the model takes the entry it made | `JournalRecovery.Handle.RevokeEntryGetAsWritten` |
| `jbd2.c:507-508` | the high half of a block number is not shifted | `JournalFormat.TagBlockAsWrittenIff` |
| `jbd2.c:643-652` | a last tag is not counted | `JournalFormat.CountAsWrittenIff` |
| `jbd2.c:784-785` | a last tag that is revoked does not end the loop | `JournalFormat.VisitedAsWrittenIff` |
| `jbd2.c:793-795` | block numbers of data are not wrapped | `JournalLog.UnwrappedIff` |
| `jbd2.c:872` | revoke entries are read from the byte count on | `JournalFormat.EntriesAsWrittenIff`, `JournalFormat.Entries64AsWrittenIff`, `JournalFormat.ShiftedSameIff` |
| `jbd2.c:908` | every pass forgets what the scan found, and nobody asks whether it found a transaction | `JournalLog.LaterPassAsWrittenIff` |
| `jbd2.c:951-1025` | blocks of the types 3 and 4 make no progress; modelled as written | `JournalLog.PassEndsIff`, `JournalLog.ClosedJournal` |
| `jbd2.c:1021` | a corrupt revoke block is ignored; modelled as written | it revokes nothing |
| `jbd2.c:1047-1062` | the status tests are the wrong way round: recovery leaves after a good scan and goes on after a failed one | `JournalRecovery.Handle.ReplayJournalAsWritten`, `JournalHistory.NothingDoneIff`; `JournalRecovery.NoDescriptors` is a test on the log |
| `jbd2.h:86-91` | the comment says that records of smaller transactions are skipped; the code skips those of the same transaction as well, and so does the model | |

`EXT_MAX_BLOCKS` and `IN_RANGE` are not part of this repository; the model takes the greatest 32-bit
number and the usual half-open test.

## Model

| member | source | states |
|---|---|---|
| Crc32.Crc | ext4fsd/drv_common/drv_crc32.c:151-160 | the loop over any buffer, with a table whose entries are right for a polynomial, is bit-by-bit reflected division by it |
| Crc32.DrvCrc32 | ext4fsd/drv_common/drv_crc32.c:162-165 | the checksum is division by the CRC-32 polynomial, without inversion before or after |
| Crc32.DrvCrc32c | ext4fsd/drv_common/drv_crc32.c:167-170 | the checksum is division by the Castagnoli polynomial of section 12.1 of RFC 3720, without inversion |
| Crc32.Crc32TableRight | ext4fsd/drv_common/drv_crc32.c:34-87 | all 256 entries of the first table are eight division steps of their index |
| Crc32.Crc32cTableRight | ext4fsd/drv_common/drv_crc32.c:97-149 | all 256 entries of the second table are eight division steps of their index |
| Crc32.MessageBitAt | ext4fsd/drv_common/drv_crc32.c:154-157 | the message has eight bits for each byte, and bit 8i + k is bit k of byte i |
| Crc32.Crc32CheckValue | ext4fsd/drv_common/drv_crc32.c:162-165 | the known checksum of the digits 1 to 9 for CRC-32, without the final inversion |
| Crc32.Crc32cCheckValue | ext4fsd/drv_common/drv_crc32.c:167-170 | the known checksum of the digits 1 to 9 for CRC-32C, without the final inversion |
| Crc32.TableStepDivides | ext4fsd/drv_common/drv_crc32.c:156-157 | one turn of the loop is division by the eight bits of its byte |
| Crc32.ChecksumComposes | ext4fsd/drv_common/drv_crc32.c:151-160 | a checksum continued over a second buffer is the checksum of both joined |
| Crc32.BurstDetected | ext4fsd/drv_common/drv_crc32.c:151-160 | two messages of equal length that differ only inside any window of 32 bits have different checksums |
| Crc32.FourByteErrorDetected | ext4fsd/drv_common/drv_crc32.c:151-170 | changing up to four consecutive bytes changes both checksums |
| Crc32.WideStepRightIff | ext4fsd/drv_common/drv_crc32.c:151-157 | with the table read as 64-bit words, a step that stays inside the table is right exactly when it looks up entry zero |
| Crc32.DeclaredStepRightIff | ext4fsd/include/drv_common/drv_types.h:10-14 | with the types as declared a turn of the loop is right exactly when the top bit is clear |
| CrcPolynomial.DivideIsRemainder | ext4fsd/drv_common/drv_crc32.c:151-160 | the register is the remainder of the message polynomial times x^32, with the initial register added, by the generator |
| CrcPolynomial.ChecksumIsRemainder | ext4fsd/drv_common/drv_crc32.c:151-160 | the same with every polynomial given by the bits of the bytes, of the initial register, of the polynomial word and of the checksum |
| CrcPolynomial.RemainderUnique | ext4fsd/drv_common/drv_crc32.c:151-160 | a dividend has only one remainder, so the checksum is that remainder |
| ExtentFields.DiskExtent.MarkUnwritten | ext4fsd/include/ext4_fs.h:834-839 | the extent is unwritten and keeps its length, which is at most 32767 |
| ExtentFields.DiskExtent.MarkInitialized | ext4fsd/include/ext4_fs.h:854-857 | the extent is written and keeps its length |
| ExtentFields.DiskExtent.StorePblk | ext4fsd/include/ext4_fs.h:863-870 | the low field is the number modulo 2^32, the high field the next 16 bits, and the two give back the low 48 bits: the number itself exactly when it has no more |
| ExtentFields.DiskExtent.StoreLength | ext4fsd/ext4_extent.c:1422-1434 | length and state, written as the tree code writes them, decode to themselves; the field is the length, plus 0x8000 for an unwritten extent |
| ExtentFields.DiskExtent.FieldsMean | ext4fsd/include/ext4_fs.h:841-870 | on all bits: unwritten means a field above 0x8000, the length is the field modulo 0x8000 unless it is 0x8000, the physical block is high * 2^32 + low; and the numbers of the tree model agree |
| ExtentFields.LengthMeans | ext4fsd/include/ext4_fs.h:781-799 | the same on numbers, for every 16-bit field |
| ExtentFields.EncodeLenMeans | ext4fsd/include/ext4_fs.h:834-839 | the encoded length is the bits of the length, with the bit of the unwritten mark |
| ExtentFields.LengthCodec | ext4fsd/include/ext4_fs.h:781-857 | each 16-bit length field encodes exactly one pair of a state and a length |
| XTime.RawInode.SetXtime | ext4fsd/include/ext4_fs.h:283-290 | the time word is the seconds modulo 2^32; the extra word has the span of 2^32 seconds from -2^31 on in two bits, below the nanoseconds |
| XTime.RawInode.GetXtime | ext4fsd/include/ext4_fs.h:302-314 | the seconds are the signed time word plus 2^32 for each epoch, as the table at 229-239 has it |
| XTime.StoreThenLoad | ext4fsd/include/ext4_fs.h:275-314 | a time stored and loaded comes back exactly when it is in the documented range |
| XTime.RoundTripIff | ext4fsd/include/ext4_fs.h:224-273 | the range is -2^31 to 2^34-2^31 seconds and 2^30 nanoseconds, no more and no less |
| XTime.EncodingInjective | ext4fsd/include/ext4_fs.h:245-250 | two times in range with the same two words are equal |
| XTime.ShortRoundTripIff | ext4fsd/include/ext4_fs.h:292-300 | without the extra word, whole seconds of the signed 32-bit range survive and nothing else |
| XTime.DeclaredRoundTripIff | ext4fsd/include/ext4_fs.h:245-250 | with the signed 32-bit type as declared, which seconds survive |
| RedBlackShape.HeightLogarithmic | ext4fsd/include/drv_common/drv_tree.h:49-57 | a red-black tree of n nodes has height at most 2*log2(n+1) |
| RedBlackTree.Table.constructor | ext4fsd/include/drv_common/drv_tree.h:302-304 | an initialised head is a valid tree without nodes |
| RedBlackTree.Table.RotateLeft | ext4fsd/include/drv_common/drv_tree.h:338-356 | a rotation at any place of the heap: links, parent links and the root follow the rotated picture, all around it stays |
| RedBlackTree.Table.RotateRight | ext4fsd/include/drv_common/drv_tree.h:358-376 | the mirror image |
| RedBlackTree.Table.SetBlackRed | ext4fsd/include/drv_common/drv_tree.h:329-333 | a node and one child take their colours, nothing else changes |
| RedBlackTree.Table.Recolor | ext4fsd/include/drv_common/drv_tree.h:440-445 | with a red uncle the red node moves up two levels and black heights stay |
| RedBlackTree.Table.InsertColorLeft | ext4fsd/include/drv_common/drv_tree.h:438-453 | a turn of the loop leaves at most one red pair, which is higher up |
| RedBlackTree.Table.InsertColorRight | ext4fsd/include/drv_common/drv_tree.h:454-470 | the mirror image |
| RedBlackTree.Table.InsertColor | ext4fsd/include/drv_common/drv_tree.h:430-473 | a tree with one red pair becomes a valid red-black tree; the loop ends |
| RedBlackTree.Table.Insert | ext4fsd/include/drv_common/drv_tree.h:622-652 | returns the node with an equal key and changes nothing, or adds exactly the new node; order, links, colours and heights hold |
| RedBlackTree.Table.Descend | ext4fsd/include/drv_common/drv_tree.h:628-640 | finds the node with the key, or the one empty place where it belongs |
| RedBlackTree.Table.Link | ext4fsd/include/drv_common/drv_tree.h:641-649 | the new node joins as a red leaf |
| RedBlackTree.Table.RotateRedSiblingLeft | ext4fsd/include/drv_common/drv_tree.h:484-488 | a red sibling turns into a black one with the shortage where it was |
| RedBlackTree.Table.RedSiblingLeft | ext4fsd/include/drv_common/drv_tree.h:489-495 | a sibling without red children turns red and the shortage moves one level up |
| RedBlackTree.Table.RotateNearChildLeft | ext4fsd/include/drv_common/drv_tree.h:497-506 | a red near child is brought to the far side |
| RedBlackTree.Table.RotateFarChildLeft | ext4fsd/include/drv_common/drv_tree.h:507-513 | a red far child ends the shortage: the whole tree is red-black |
| RedBlackTree.Table.RemoveColorLeft | ext4fsd/include/drv_common/drv_tree.h:482-514 | a turn of the loop ends the shortage or moves it up |
| RedBlackTree.Table.RemoveColorRight | ext4fsd/include/drv_common/drv_tree.h:515-548 | the mirror image |
| RedBlackTree.Table.RemoveColor | ext4fsd/include/drv_common/drv_tree.h:475-552 | a tree that is short of one black node at one place becomes a valid red-black tree; the loop ends |
| RedBlackTree.Table.Remove | ext4fsd/include/drv_common/drv_tree.h:554-620 | on every valid tree and every node in it: a valid tree with exactly the other nodes |
| RedBlackTree.Table.RemoveInner | ext4fsd/include/drv_common/drv_tree.h:564-603 | the successor leaves its place and takes over the links and the colour of the removed node |
| RedBlackTree.Table.RemoveOuter | ext4fsd/include/drv_common/drv_tree.h:604-615 | a node with at most one child gives its place to the child |
| RedBlackTree.Table.Find | ext4fsd/include/drv_common/drv_tree.h:654-671 | the node with the key, or null exactly when there is none |
| RedBlackTree.Table.NFind | ext4fsd/include/drv_common/drv_tree.h:673-693 | the node with the least key that is not smaller |
| RedBlackTree.Table.MinMax | ext4fsd/include/drv_common/drv_tree.h:741-755 | the least or the greatest node |
| RedBlackTree.Table.Next | ext4fsd/include/drv_common/drv_tree.h:695-716 | the node with the next greater key |
| RedBlackTree.Table.Prev | ext4fsd/include/drv_common/drv_tree.h:718-739 | the node with the next smaller key |
| RedBlackHeap.PrevOfNext | ext4fsd/include/drv_common/drv_tree.h:695-739 | the predecessor of a successor is the node itself |
| RedBlackHeap.NextOfPrev | ext4fsd/include/drv_common/drv_tree.h:695-739 | the successor of a predecessor is the node itself |
| RedBlackTree.Table.Listing | ext4fsd/include/drv_common/drv_tree.h:769-772 | the loop visits every node once in increasing order |
| SplayTree.Head.constructor | ext4fsd/include/drv_common/drv_tree.h:68-70 | an initialised head is an empty tree |
| SplayTree.Head.RotateRight | ext4fsd/include/drv_common/drv_tree.h:84-88 | a rotation at the root of the middle part, spines untouched, sequence kept |
| SplayTree.Head.LinkLeft | ext4fsd/include/drv_common/drv_tree.h:96-100 | the root joins the right spine and its left subtree is what is left; sequence kept |
| SplayTree.Head.LinkRight | ext4fsd/include/drv_common/drv_tree.h:102-106 | the mirror image |
| SplayTree.Head.Assemble | ext4fsd/include/drv_common/drv_tree.h:108-113 | two spines and a middle part become one ordered tree with the same sequence |
| SplayTree.Head.StepLeft | ext4fsd/include/drv_common/drv_tree.h:215-224 | a turn keeps the sequence and either ends the search or makes the middle part smaller |
| SplayTree.Head.StepRight | ext4fsd/include/drv_common/drv_tree.h:225-235 | the mirror image |
| SplayPaths.SplayHalves | ext4fsd/include/drv_common/drv_tree.h:205-238 | after a splay node number i of the search path is at most i/2 + 2 links below the root |
| SplayTree.Head.Splay | ext4fsd/include/drv_common/drv_tree.h:205-238 | the in-order sequence is kept, the sought key, or its predecessor or successor, is at the root, and the search path is halved; the heap does what the splay on trees does |
| SplayTree.Head.SplayMinMax | ext4fsd/include/drv_common/drv_tree.h:243-274 | the in-order sequence is kept, the least or greatest node is at the root, and the path to it is halved |
| SplayTree.Head.Insert | ext4fsd/include/drv_common/drv_tree.h:160-182 | set insertion: the equal node and no change of the set, or exactly the new node more |
| SplayTree.Head.Remove | ext4fsd/include/drv_common/drv_tree.h:184-203 | set deletion by key; which node goes and which the source returns |
| SplayTree.Head.Rejoin | ext4fsd/include/drv_common/drv_tree.h:195-198 | splaying the left subtree again leaves an empty right child at its root, so the right subtree is reattached without loss |
| SplayTree.Head.Find | ext4fsd/include/drv_common/drv_tree.h:124-133 | the node with the key, or null exactly when there is none |
| SplayTree.Head.Next | ext4fsd/include/drv_common/drv_tree.h:135-147 | the node with the next greater key |
| SplayTree.Head.MinMax | ext4fsd/include/drv_common/drv_tree.h:283-286 | the least and the greatest node, null for an empty tree |
| SplayShape.NearestExtreme | ext4fsd/include/drv_common/drv_tree.h:195-198 | when all keys are below the sought one nothing lies right of the nearest node |
| ExtentMeaning.MapMeans | ext4fsd/ext4_extent.c:1591-1602 | a block is mapped exactly when it is in the range of an extent, by first block and length field, to the start plus its distance, written unless the field is above 0x8000 |
| ExtentMeaning.StoreMeans | ext4fsd/ext4_extent.c:275-319 | in a well-formed tree every stored block is right by itself (capacity, count, order, children one level down with the key of their entry first), and the stored blocks read from the root give the extents |
| ExtentMeaning.RootCapacity | ext4fsd/ext4_extent.c:89-115 | the root has room for as many 12-byte entries as fit its 60 bytes behind a 12-byte header, and no more |
| ExtentTree.Inode.constructor | ext4fsd/ext4_extent.c:61-87 | an empty file; tree blocks have room for as many 12-byte entries as fit behind a 12-byte header, and no more |
| ExtentTree.Inode.Meaning | ext4fsd/ext4_extent.c:275-319 | the map of a file is read off its stored blocks, all of them are right, and no free block is one of them |
| ExtentTree.BinSearchIdx | ext4fsd/ext4_extent.c:349-371 | the last index that is not above the block, the first one when there is none |
| ExtentTree.BinSearch | ext4fsd/ext4_extent.c:373-398 | the last extent that is not above the block, the first one when there is none, none in an empty leaf |
| ExtentTree.Inode.Find | ext4fsd/ext4_extent.c:400-484 | the path leads from the root to the leaf where a linear search of all extents ends |
| ExtentPlaces.FoundInList | ext4fsd/ext4_extent.c:349-484 | the two binary searches together find the position that a linear search of the list of all extents finds |
| ExtentMap.PositionDecides | ext4fsd/ext4_extent.c:1480-1508 | the found extent covers the block exactly when any does; when it starts at or before the block no other extent meets the blocks up to the next allocated one |
| ExtentTree.Inode.NextAllocated | ext4fsd/ext4_extent.c:1480-1508 | the first block of the extent after the found one, through any number of levels |
| ExtentMap.NextFirstRightIff | ext4fsd/ext4_extent.c:1480-1508 | when the next allocated block ends the hole around a block |
| ExtentTree.Inode.CorrectIndexes | ext4fsd/ext4_extent.c:693-737 | the index keys above a leaf become its first block, as far up as they are first entries |
| ExtentTree.Inode.InsertLeaf | ext4fsd/ext4_extent.c:795-899 | the branches of the insertion at a leaf: the same block present, append, prepend, no room, or a new entry in its place |
| ExtentTree.Inode.HalveLeaf | ext4fsd/ext4_extent.c:551-612 | the leaf in two halves and the key between them; the new half is stored apart, and the way to each half is known |
| ExtentTree.Inode.SplitLeaf | ext4fsd/ext4_extent.c:551-612 | the entries after the current one move to a new block, order and contents kept |
| ExtentTree.Inode.SplitIndex | ext4fsd/ext4_extent.c:613-684 | the same for an index block, with an entry for the new part below |
| ExtentTree.Inode.InsertIndex | ext4fsd/ext4_extent.c:495-549 | the new part gets its entry in the block above, which has room |
| ExtentTree.Inode.SplitNode | ext4fsd/ext4_extent.c:551-691 | the tree is stored whole again, holds the same extents in the same order, and the path leads to the half where the new extent belongs |
| ExtentTree.Inode.GrowIndepth | ext4fsd/ext4_extent.c:901-963 | the same extents, one level more for every leaf |
| ExtentSplits.GrownWellFormed | ext4fsd/ext4_extent.c:901-963 | growth keeps a well-formed tree well formed and its map as it is |
| ExtentTree.Inode.GrowAndFind | ext4fsd/ext4_extent.c:996-1013 | after growth the path is the old one below a root with room |
| ExtentTree.Inode.FindFree | ext4fsd/ext4_extent.c:991-993 | the lowest block on the path with room, or none |
| ExtentTree.Inode.MakeRoom | ext4fsd/ext4_extent.c:989-1039 | the leaf for the new extent has room afterwards, whatever had to split or grow, and no extent changed |
| ExtentTree.Inode.Attempt | ext4fsd/ext4_extent.c:986-989 | an attempt at a leaf succeeds, or asks for room; it cannot ask for room twice |
| ExtentTree.Inode.InsertExtent | ext4fsd/ext4_extent.c:975-1059 | refused for a block that starts an extent; otherwise one merged neighbour, with the exact condition under which the tree stays well formed, or a well-formed tree whose map is the old one plus the new run, with each block taken from the free ones; only a full leaf needs any. A new extent that begins where one of the same list ends, and fits to it, leaves the joint extent in its place |
| ExtentMap.MapInserted | ext4fsd/ext4_extent.c:795-899 | a new extent that shares no block adds its own run to the map and nothing else |
| ExtentMeaning.MergeMeans | ext4fsd/ext4_extent.c:739-835 | by fields alone: when two extents merge, which way, and into what |
| ExtentMerges.AppendRightIff | ext4fsd/ext4_extent.c:767-822 | appending adds the new run to the map exactly when the states agree |
| ExtentMerges.AppendedIs | ext4fsd/ext4_extent.c:767-822 | the appended extent has the joint length, the old start and the old state |
| ExtentSplits.MergedWhole | ext4fsd/ext4_extent.c:806-848 | after a merge the tree is well formed exactly when the extent was appended, or the root is the leaf and the result is a proper extent |
| ExtentMerges.PrependNeverRight | ext4fsd/ext4_extent.c:739-765 | prepending as written never adds the new run to the map |
| ExtentMerges.AddedMap | ext4fsd/ext4_extent.c:1641-1656 | when a block added by get_blocks is mapped right although it was merged |
| ExtentTree.Inode.RemoveEntries | ext4fsd/ext4_extent.c:1124-1220 | the loop over a leaf keeps exactly what lies outside the range and frees each block inside once, in order |
| ExtentTree.Inode.RemoveIdx | ext4fsd/ext4_extent.c:1077-1122 | the entry of an empty block leaves the block above, the empty block is freed, keys above follow |
| ExtentTree.Inode.RemoveLeaf | ext4fsd/ext4_extent.c:1124-1233 | a leaf is cut; keys above follow its new first block; when empty it leaves the tree and is freed |
| ExtentTree.Inode.CutLeaf | ext4fsd/ext4_extent.c:1303-1325 | the turn of the walk at a leaf: the blocks before it are cut, the rest is untouched, every block is accounted for |
| ExtentTree.Inode.MoreToRm | ext4fsd/ext4_extent.c:1235-1247 | whether the walk goes down again |
| ExtentTree.Inode.GoUp | ext4fsd/ext4_extent.c:1353-1369 | the turn of the walk at an index block with nothing more to remove |
| ExtentTree.Inode.RemoveWalk | ext4fsd/ext4_extent.c:1301-1370 | the walk ends, and has cut the range out of all leaves |
| ExtentTree.Inode.RemoveInside | ext4fsd/ext4_extent.c:1275-1299 | a range strictly inside one extent leaves its head and its tail; new tree blocks come from the free ones |
| ExtentTree.Inode.RemoveSpace | ext4fsd/ext4_extent.c:1249-1389 | well formed; the map is the old one outside the range; the freed data blocks are the physical blocks of the range in order; freed blocks and tree blocks together are conserved, so each is freed exactly once; nothing happens when the range starts in a hole; when it lies strictly inside an extent nothing is freed and new tree blocks come from the free ones, and only then are any needed |
| ExtentCuts.KeptMap | ext4fsd/ext4_extent.c:1124-1220 | cutting extents is removing the range from the map |
| ExtentCuts.KeptApart | ext4fsd/ext4_extent.c:1124-1220 | what is left is in order, disjoint and encodable |
| ExtentCuts.PhysicalKept | ext4fsd/ext4_extent.c:1061-1075 | every physical block is kept or freed, as often as it was there |
| ExtentMeaning.FreedMeans | ext4fsd/ext4_extent.c:1061-1075 | the blocks freed from extents are the mapped physical blocks of the range, one for each logical block, in their order |
| ExtentCuts.HoleRemovalIff | ext4fsd/ext4_extent.c:1266-1272 | removal from a hole is right as written exactly when the hole covers the range |
| ExtentTree.Inode.SplitExtentAt | ext4fsd/ext4_extent.c:1391-1446 | an unwritten extent in two parts with their own states; well formed; without a free block when only the state changes |
| ExtentTree.Inode.ConvertToInitialized | ext4fsd/ext4_extent.c:1448-1478 | whole, left, right and middle case: exactly the blocks asked for become written, no physical block changes; the free blocks each case may need |
| ExtentConversions.ConvertedMap | ext4fsd/ext4_extent.c:1448-1478 | the three parts of the converted extent map as the one did, but for the states of the range |
| ExtentConversions.MiddleAsWrittenWrong | ext4fsd/ext4_extent.c:1468-1473 | on every input, the list of extents after both splits as written overlaps, and a search for the first converted block finds it 2^32 blocks away from where it was |
| ExtentTree.Inode.GetBlocks | ext4fsd/ext4_extent.c:1558-1683 | without create, the run of the map from the block on and no change; with create, an unwritten run becomes written or a hole gets one block that leaves the free ones and is no tree block; free blocks are needed only with create |
| ExtentTree.Inode.AddBlock | ext4fsd/ext4_extent.c:1639-1665 | one block leaves the free ones and enters the file next to the found extent; tree blocks come from the other free ones |
| JournalFormat.SerialOrder | ext4fsd/jbd2/jbd2.c:38-45 | the comparison gives the true order exactly within half of the number space, as section 3.2 of RFC 1982 has it |
| JournalFormat.TagsFit | ext4fsd/jbd2/jbd2.c:641-650 | only the final tag of a block is marked last |
| JournalFormat.CountAsWrittenIff | ext4fsd/jbd2/jbd2.c:631-653 | the count as written is one short exactly when a tag is marked last |
| JournalFormat.VisitedAsWrittenIff | ext4fsd/jbd2/jbd2.c:768-837 | replay as written stops where it should exactly when the last tag is not skipped or nothing fits behind it |
| JournalFormat.TagBlockAsWrittenIff | ext4fsd/jbd2/jbd2.c:502-511 | the block number as written is right exactly when its high half is zero |
| JournalFormat.RestoredMagic | ext4fsd/jbd2/jbd2.c:825-829 | an escaped block begins with the magic number again and keeps the rest |
| JournalFormat.EntriesAsWrittenIff | ext4fsd/jbd2/jbd2.c:856-884 | with 32-bit entries the scan as written revokes the right blocks exactly when the byte count leaves no room for one more or is itself the number of a revoked block |
| JournalFormat.Entries64AsWrittenIff | ext4fsd/jbd2/jbd2.c:856-884 | with 64-bit entries it revokes the entries shifted by a word; with no revoked block whose high half is the byte count, right exactly when it reads nothing |
| JournalFormat.ShiftedSameIff | ext4fsd/jbd2/jbd2.c:856-884 | shifted entries are the same list exactly when every word of it is the byte count and nothing more is read |
| JournalWriter.DescriptorRead | ext4fsd/include/jbd2/jbd2_fs.h:82-94 | a descriptor block laid out in bytes, for each set of features, is read as the block numbers and flags it was given, marked last or full |
| JournalWriter.RevokeRead | ext4fsd/include/jbd2/jbd2_fs.h:103-112 | a revoke block laid out in bytes, with entries of four or eight bytes, is read as the blocks it was given |
| JournalWriter.RevokeCorrupt | ext4fsd/jbd2/jbd2.c:866-870 | a byte count that reaches into the room for the checksum revokes nothing |
| JournalWriter.WrittenWalk | ext4fsd/jbd2/jbd2.c:915-1033 | on a log laid out around the log area the walk goes from unit to unit, with the transaction number of each |
| JournalWriter.WrittenHistory | ext4fsd/jbd2/jbd2.c:915-1033 | the history read from such a log is what its units say: the data blocks behind a descriptor, unescaped, and the revoked blocks |
| JournalWriter.RecoverWritten | ext4fsd/jbd2/jbd2.c:1040-1066 | recovery of such a log succeeds and leaves what the units up to the last commit block say |
| JournalWriter.ReplayWritten | ext4fsd/jbd2/jbd2.c:751-840 | replay of one such descriptor block without revokes writes exactly the blocks it names |
| JournalLog.Consecutive | ext4fsd/jbd2/jbd2.c:941-950 | transaction numbers count up by one along the walk, modulo 2^32, and the walk stays above the start and the log area |
| JournalLog.EndsOnce | ext4fsd/jbd2/jbd2.c:915-1033 | a pass goes through the longest prefix of blocks that it accepts and no further |
| JournalLog.PassEndsIff | ext4fsd/jbd2/jbd2.c:915-1033 | the scan, and a later pass with any end, terminate exactly when they never come back to a block, and then within one lap |
| JournalLog.ClosedJournal | ext4fsd/jbd2/jbd2.c:906-949 | a log that starts at the superblock: the scan ends at once and well, or never, by the number in the superblock's header |
| JournalLog.LapHasNoCommit | ext4fsd/jbd2/jbd2.c:990-1008 | a lap that comes back holds no commit block |
| JournalLog.CommittedCommits | ext4fsd/jbd2/jbd2.c:1001-1004 | the committed part is the shortest prefix with all commit blocks of the scan |
| JournalLog.LaterPassStops | ext4fsd/jbd2/jbd2.c:920-922 | the test of the later passes stops them exactly at the end of the committed part |
| JournalLog.LaterPassVisits | ext4fsd/jbd2/jbd2.c:915-1033 | a later pass that is told the last committed transaction goes through exactly the committed part and succeeds |
| JournalLog.LaterPassAsWrittenIff | ext4fsd/jbd2/jbd2.c:906-922 | with the cleared end, a later pass goes through exactly the committed part when the last committed number is zero, or there is none and the first number is positive as a signed one, and in no other case |
| JournalLog.DataInside | ext4fsd/jbd2/jbd2.c:28-32 | data blocks of a descriptor wrap to blocks of the log |
| JournalLog.UnwrappedIff | ext4fsd/jbd2/jbd2.c:793-795 | unwrapped data block numbers are right exactly when they all lie before the end of the log |
| JournalHistory.HistoryOrder | ext4fsd/jbd2/jbd2.c:915-1033 | the history of a log is in the order of its transactions |
| JournalHistory.HistoryCommitted | ext4fsd/jbd2/jbd2.c:915-1033 | the history of the committed part has only committed transactions |
| JournalHistory.LiveIff | ext4fsd/jbd2/jbd2.c:780-786 | a look at the latest revoking transaction decides whether a write is to be replayed |
| JournalHistory.AppliedRecovers | ext4fsd/jbd2/jbd2.c:752-840 | replaying in order leaves each block with its last live write and all others untouched |
| JournalHistory.RecoveredUnique | ext4fsd/jbd2/jbd2.c:752-840 | that promise determines the whole image |
| JournalHistory.RestartIff | ext4fsd/jbd2/jbd2.c:1040-1066 | recovery from another image ends alike exactly when the images differ only at blocks with a live write |
| JournalHistory.Restartable | ext4fsd/jbd2/jbd2.c:1040-1066 | recovery can be run again after it stopped at any point |
| JournalHistory.NothingDoneIff | ext4fsd/jbd2/jbd2.c:1047-1048 | doing nothing is recovery exactly when replaying would change nothing |
| JournalHistory.NothingToDo | ext4fsd/jbd2/jbd2.c:1047-1048 | a history without a live write changes nothing |
| JournalRecovery.NoDescriptors | ext4fsd/jbd2/jbd2.c:952-989 | a log without descriptor blocks in a prefix of the walk writes nothing |
| JournalHistory.PartialImage | ext4fsd/jbd2/jbd2.c:768-837 | wherever replay stops, it has replayed a prefix of the history |
| JournalRecovery.SkipIff | ext4fsd/jbd2/jbd2.c:780-786 | the comparison of wrapped numbers skips exactly the writes of transactions not later than the latest revoke |
| JournalRecovery.Handle.RevokeEntryGet | ext4fsd/jbd2/jbd2.c:196-223 | the entry of a block, held once; a new one exactly when there was none |
| JournalRecovery.Handle.RevokeEntryGetAsWritten | ext4fsd/jbd2/jbd2.c:196-223 | as written it works exactly for blocks that have an entry; else a linked node is freed |
| JournalRecovery.Handle.RevokeEntryFind | ext4fsd/jbd2/jbd2.c:233-252 | null exactly when the block has no entry |
| JournalRecovery.Handle.RevokeEntryPut | ext4fsd/jbd2/jbd2.c:259-272 | as written: only a count that drops to zero leaves the entry in the table |
| JournalRecovery.Handle.Release | ext4fsd/jbd2/jbd2.c:259-272 | an entry survives a balanced get and put |
| JournalRecovery.Handle.RevokeTableClear | ext4fsd/jbd2/jbd2.c:274-284 | every entry is removed and freed exactly once, in order, although the loop deletes where it stands |
| JournalRecovery.Handle.CountTags | ext4fsd/jbd2/jbd2.c:631-653 | the number of tags in use, the last one included |
| JournalRecovery.Handle.ScanRevokeEntries | ext4fsd/jbd2/jbd2.c:850-886 | the table maps each revoked block to the latest transaction that revokes it |
| JournalRecovery.Handle.ReplayTag | ext4fsd/jbd2/jbd2.c:779-832 | one write, or none when an equal or later transaction revokes the block |
| JournalRecovery.Handle.ReplayDescrBlock | ext4fsd/jbd2/jbd2.c:751-840 | the writes of a descriptor block, in order, from the right places of the circle |
| JournalRecovery.Handle.OneBlock | ext4fsd/jbd2/jbd2.c:924-1029 | one turn of a pass: the next place of the walk, or the end of the scan |
| JournalRecovery.Handle.ReplayOnePass | ext4fsd/jbd2/jbd2.c:899-1033 | the scan ends at the first bad block and knows the last committed transaction; every pass goes through the places of the walk in the same order, builds its table or image from exactly their history, and reports what it met at its end |
| JournalRecovery.Handle.ReplayJournal | ext4fsd/jbd2/jbd2.c:1040-1066 | each client block holds its last committed write not revoked by an equal or later transaction, all others are untouched, the table is empty again; a failed scan changes nothing |
| JournalRecovery.Handle.ReplayAgain | ext4fsd/jbd2/jbd2.c:1040-1066 | recovery stopped after any number of writes and started again leaves the image of one recovery from the first image |
| JournalRecovery.Handle.ReplayJournalAsWritten | ext4fsd/jbd2/jbd2.c:1040-1066 | as written a good scan ends recovery, which is right exactly when replaying would change nothing; a failed scan is reported as success with nothing replayed, or blocks are replayed whether committed or not and recovery fails, by the numbers of the log |

## Left out

- I/O errors other than a read behind the end of the log, and allocation failure in the middle of an
  operation: the source does not undo the entries it has moved by then.
- The block allocator: it is a set of free blocks from which any one may be taken. Goals, the zeroing of
  data, quotas, and the return of freed blocks to that set within an operation are not modelled.
- Reference counts and dirty flags of cached blocks, and the checksums of extent blocks.
- Extent tree blocks are records with a sequence of entries; the byte moves inside a block are sequence
  operations, and the offsets of entries within a block are not modelled.
- Checksum verification inside recovery: two predicates on blocks decide whether a block is accepted.
  The checksum function itself is proved in `Crc32`.
- The LBCB table of the journal, which is the same tree with the same get and put, and is not used by
  recovery.
- Concurrent or overlapping holders of revoke entries: the put routine frees on any count but zero, so
  only balanced holders make sense.
- The write side of the journal and transactions, which are empty in the source; opening and closing a
  journal; superblock and feature checks; byte order of fields on the host.
- JournalFormat.Entries64AsWrittenIff: no closed condition for a revoked block whose number has the byte
  count as its high half; whether a shifted list then holds the same blocks in another order depends on
  all its words.
- JournalRecovery.Handle.ReplayJournalAsWritten: only the status tests and the cleared record are as
  written; the readers of blocks are the documented ones. After a failed scan the later passes must end,
  with fewer than 2^31 transactions before they do.
- ExtentTree.Inode.GetBlocks: max_blocks is positive, as a request for no block has no meaning; a
  created run is one block long, as the allocator of the source hands out one block.
- ExtentTree.Inode.RemoveSpace: the last block of the range is a 32-bit number below the limit; a range
  strictly inside an extent needs enough free blocks for the splits of one insertion.
- JournalRecovery.Handle.ReplayJournal: the log must let the scan end (`JournalLog.PassEndsIff` says when)
  and hold at most 2^31 transactions, the reach of the comparison of their numbers.
- Windows kernel plumbing, and the test branches that are compiled out.
