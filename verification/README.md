# A model of Vire's data structures and streams

Vire is a multithreaded server that speaks the Redis protocol. This project models the structures
and streams at its centre and proves, for all inputs, all runs and all reachable states, that the
code far down does what the simple view of it promises:

- the dictionary is a finite map in every phase of its incremental rehashing, and `SCAN` over the
  internal databases reaches every key, and without a shrink only once (`Words`, `Cursor`, `Tables`,
  `Dict`, `Scan`, `DbScan`);
- LZF compression is undone by decompression, whatever the uninitialised match table holds (`Lzf`);
- the red-black tree with parent links and a shared sentinel stays an ordered red-black tree through
  insertion and deletion (`RbShapes`, `RbTree`);
- a HyperLogLog is a list of registers that summarises a set, in packed and in run-length form
  (`Bitwise`, `LittleEndian`, `HllDense`, `HllSparse`, `HllSums`, `Hll`);
- the chunked list is one sequence, through splits, merges and deletion while iterating (`Chunks`,
  `Links`, `Quicklist`, `Removal`, `ListCommands`);
- the parser takes exactly the bytes that are a request and refuses exactly those that are bad; a
  stream of requests is parsed into the same commands however it is cut into reads, and the
  replication backlog is the tail of such a stream (`Decimal`, `Protocol`, `Wire`, `Requests`,
  `Backlog`);
- bytes sent followed by bytes pending are all replies in order (`ReplyQueue`);
- the integer set is a sorted set at byte level (`Intset`), and counting bits, searching for a bit
  and bit fields are what a bit-by-bit reading says (`PopCount`, `BitScan`, `Bitfield`).

`Basics` holds what several modules share.

## How the code is modelled

Objects whose fields the code updates are classes, and every loop of the code is a loop with its
invariants. The links of the nodes (`RbTree`, `Quicklist`) are addresses into an explicit
memory, a map from addresses to structs, so every single link update of the code is there. Hash
chains are sequences, with an insertion at the head where the code links at the head. 64-bit cursor
words are lists of 64 bits; bytes are numbers below 256 with bit operations defined on them.

Where the comments of the code and the code disagree the code is followed: the comment over
`_quicklistSplitNode` (src/vr_quicklist.c:745-762) describes another split than the code makes.

## What the proofs assume

- Hash functions are arbitrary functions of the key: nothing is assumed about collisions. The same
  holds for the checksum that routes a key, and for the size in bytes of a ziplist.
- Tables have fewer than 2^31 buckets, and `dictAdd` meets at most 2^30 entries.
- A ziplist is the sequence of its entries, under the contract of src/vr_ziplist.h.
- The input of the compressor is not one byte long: the code reads two bytes to start with.
- HyperLogLog sums are exact sums of real numbers; the estimate is an arbitrary function of the sum
  and the number of zero registers that is 0 for an empty object.
- Bit fields are 1 to 63 bits wide, and for signed fields the differences the overflow check forms
  do not themselves overflow.
- Bytes of a number are stored least significant first, as on the machines the code is built for.

## Findings

Where a promise or a natural expectation is false of the code, a member gives the input and another
the exact condition.

| what fails | input | exact condition |
|---|---|---|
| the scan guarantee in the comment at src/vr_dict.c:739-741: the inner loop counts expansions upwards (line 868) while the cursor runs in reversed bit order | `ScanRuns.ShrinkToQuarterMissesKey` | `ScanRuns.CoversExactlyInOrder` |
| that a scan returns an element once, which the comment at src/vr_dict.c:807-808 does not promise | `ScanRuns.ShrinkReportsTwice` | `ScanRuns.LooksBackExactlyWhenWide` |
| deleting a range that starts inside a node and runs past its end, src/vr_quicklist.c:958 | `ListCommands.TornRange` | `Quicklists.Quicklist.DelRange` |
| a `SCAN` that crosses internal databases drops expired keys by the wrong table, src/vr_db.c:719 | `KeyScan.ExpiredReturned` | `KeyScan.ExpiredFiltered` |
| a request is refused when a read ends inside a length line with more than 64 KiB held, src/vr_client.c:1108-1115 | `Requests.CutGivesUp` | `Requests.ReceiveAll` |

No command of the server meets the torn range, since `LTRIM` starts at 0 or at a negative index, and
the reads the server makes never meet the last one (`Requests.ReceiveFromSocket`).

## Model

| member | source | states |
|---|---|---|
| `Dicts.NextPower` | src/vr_dict.c:911-921 | the table size chosen is the least power of two, from 4 on, that is not below the size asked for |
| `Dicts.Dict.constructor` | src/vr_dict.c:129-149 | a new dictionary is consistent and stands for the empty map |
| `Dicts.Dict.Expand` | src/vr_dict.c:165-195 | refused exactly while rehashing, when the entries would not fit, or when the size would stay the same; otherwise the first table is created or an empty second one is set up for migration, the map unchanged |
| `Dicts.Dict.Resize` | src/vr_dict.c:153-162 | when accepted, the state is exactly the start of a migration to a fresh table of the least fitting size; when refused with resizing allowed, the table already has that size |
| `Dicts.Dict.MigrateBucket` | src/vr_dict.c:220-235 | moving one bucket keeps every invariant and the map, and empties the bucket at the migration index |
| `Dicts.Dict.SkipEmpty` | src/vr_dict.c:213-219 | each empty bucket passed uses up one visit; with visits left, a bucket with entries has been found |
| `Dicts.Dict.Rehash` | src/vr_dict.c:206-249 | the map never changes; the call says whether migration goes on; it either completes the migration or moves the index forward, by at least n and at most 11 n buckets |
| `Dicts.Dict.RehashToEnd` | src/vr_dict.c:259-268 | repeated rehashing ends with a single table, of the size of the second one, for the same map |
| `Dicts.Dict.RehashStep` | src/vr_dict.c:278-280 | one step of migration unless an iterator is open, never a smaller table |
| `Dicts.Dict.Find` | src/vr_dict.c:453-472 | finds a position holding the key and its value if and only if the key is in the map, in every phase of a migration |
| `Dicts.Dict.ExpandIfNeeded` | src/vr_dict.c:889-908 | never fails; changes the dictionary exactly when there is no table yet (then 4 buckets) or the table is crowded (then a migration to the least size for twice the entries starts) |
| `Dicts.Dict.KeyIndex` | src/vr_dict.c:929-951 | -1 exactly for a key already present, else the bucket of the masked hash in the table that takes new entries |
| `Dicts.Dict.Add` | src/vr_dict.c:283-333 | refused exactly for a present key; otherwise the map gains the pair; an absent key is always added |
| `Dicts.Dict.Replace` | src/vr_dict.c:339-358 | the key maps to the new value afterwards, and the result says whether it was new |
| `Dicts.Dict.DeleteIn` | src/vr_dict.c:383-404 | one round of deletion removes the key from one table exactly if it is there |
| `Dicts.Dict.Delete` | src/vr_dict.c:373-412 | succeeds exactly for a present key, and only that key is gone |
| `Dicts.MoveHead` | src/vr_dict.c:222-233 | moving one entry between the tables keeps consistency (counters, placement, disjoint keys, empty buckets below the index) and the map |
| `Dicts.FinishRehash` | src/vr_dict.c:238-245 | with the first table empty the second may take its place: same map |
| `Words.Rev` | src/vr_dict.c:721-729 | swapping blocks of 32, 16, ..., 1 bits reads the word backwards |
| `Cursor.NextCursorBits` | src/vr_dict.c:874-881 | the next cursor keeps the bits below the highest clear bit of the masked cursor, sets that bit and clears the rest; it is 0 when all bits are set |
| `Cursor.NextCursorAdvances` | src/vr_dict.c:874-881 | the next cursor is 0 or strictly further on in reversed bit order |
| `Cursor.StepCovers` | src/vr_dict.c:815-884 | the hashes between a cursor and the next one in scan order all fall in the bucket visited |
| `Cursor.NextExpansionCounts` | src/vr_dict.c:867-868 | the inner loop increments the expansion number by one, wrapping to 0, and stays in the small bucket |
| `Cursor.ExpansionTest` | src/vr_dict.c:870-871 | the inner loop goes on exactly while the expansion number is not 0 |
| `Dicts.Dict.ScanExpansions` | src/vr_dict.c:857-871 | the inner loop emits exactly the entries of the larger table that share the small bucket and have an expansion number from the cursor's on, no key twice |
| `Dicts.Dict.ScanBoth` | src/vr_dict.c:837-872 | with two tables: the bucket of the smaller one and its expansions in the larger one, no key twice |
| `Dicts.Dict.Scan` | src/vr_dict.c:815-884 | a call returns the next cursor of the smaller table and emits exactly the entries of its bucket and of the expansions it visits, no key twice |
| `ScanRuns.CallReports` | src/vr_dict.c:815-884 | a call whose cursor fits reports every present key whose hash lies between its cursor and the next |
| `ScanRuns.ScanCoverage` | src/vr_dict.c:815-884 | in a full scan, whatever happens between the calls, a key present at every call is reported by one of them if every call's cursor fits |
| `ScanRuns.ScanCoverageWithoutDeepShrink` | src/vr_dict.c:739-741 | coverage under any mix of additions, deletions, migration steps, growths and halvings; only a shrink to a quarter or less that begins inside the scan is excluded |
| `ScanRuns.CoversExactlyInOrder` | src/vr_dict.c:857-871 | the exact condition: a call at a cursor reports everything it leaves behind, for all contents of two tables of given sizes, if and only if the cursor's owed expansions are in order |
| `ScanRuns.ShrinkToQuarterMissesKey` | src/vr_dict.c:739-741 | the documented promise fails: one resize from 16 buckets to 4 after the first call, and a key present throughout is reported by none of the calls 0, 8, 2, 1, 3 |
| `ScanRuns.ScanLength` | src/vr_dict.c:815-884 | on a fixed size the loop ends: at most as many calls as the smaller table has buckets, and 0 is returned exactly at the last of these (earlier only if the dictionary is empty) |
| `ScanRuns.ScanEnds` | src/vr_dict.c:815-884 | no scan goes on for ever, whatever happens to the tables: at most as many calls as the smaller table ever has buckets |
| `ScanRuns.ReportedAtMostOnce` | src/vr_dict.c:807-808 | no two calls of a scan report the same key, whatever is added, deleted, migrated or grown in between, unless a shrink starts |
| `ScanRuns.ReportedExactlyOnce` | src/vr_dict.c:735-742 | a full scan without a shrink, all the more one of a dictionary left alone, reports each key that is there throughout by exactly one call |
| `ScanRuns.LooksBackExactlyWhenWide` | src/vr_dict.c:807-808 | the exact condition: a call may report a key that an earlier cursor has left behind, for some contents, if and only if its cursor is wider than the smaller table |
| `ScanRuns.ShrinkReportsTwice` | src/vr_dict.c:807-808 | an input for which a key is reported twice: 8 buckets at the first call, 4 at the second |
| `KeyScan.Route` | src/vr_db.c:1361-1369 | every key is routed to one existing internal database |
| `KeyScan.Client.ScanDb` | src/vr_db.c:636-653 | the calls made on one database follow each other from the given cursor to the returned one; every key collected is there once for each call that reported it; the loop ends at the end of the database, with `count` keys, or after 10 `count` further calls, and not later |
| `KeyScan.Client.ScanOnce` | src/vr_db.c:649 | one call adds each key it reports to the list once, and nothing else |
| `KeyScan.Client.CollectKeys` | src/vr_db.c:456-482 | the callback appends the keys of the entries in their order |
| `KeyScan.Client.ScanDbs` | src/vr_db.c:610-689 | databases that end are followed by the next one from cursor 0, so 0 is only returned for the last; every key is there once for each call that reported it |
| `KeyScan.Client.Filter` | src/vr_db.c:696-726 | the keys that the given database finds expired are dropped, all others are kept as often as they were there |
| `KeyScan.Client.Scan` | src/vr_db.c:515-757 | one SCAN command: its calls lead from where the client stood to where it stands, `scanid` is kept up, and the reply holds a key once for each call that reported it, less what the last database finds expired |
| `KeyScan.ScanMore` | src/vr_db.c:515-757 | each further command of a client's loop extends the iteration and makes progress, whatever became of the databases in between |
| `KeyScan.ScanAll` | src/vr_db.c:515-757 | a client's whole loop on databases left alone ends, is a complete iteration, and returns every key that has not expired, in any phase of a migration; if every key lives where it is routed to, each such key exactly once, no key twice and no key that is not there |
| `KeyScan.ScanReturnsEveryKey` | src/vr_db.c:561-689 | a full SCAN loop over all internal databases returns every key present and unexpired throughout, if no call meets a cursor that does not fit |
| `KeyScan.ScanReturnsEveryKeyUnlessShrunk` | src/vr_db.c:561-689 | the same with a condition on table sizes alone: between two calls on the key's database no shrink to a quarter or less has begun |
| `KeyScan.ScanReturnsKeyAtMostOnce` | src/vr_db.c:561-689 | a full SCAN loop returns a key at most once, counting all its replies, if the key is only ever found in its own database and no shrink of that one starts between two calls |
| `KeyScan.ExpiredFiltered` | src/vr_db.c:718-719 | an expired key that was collected stays out of the reply if and only if the command ended in the key's own database |
| `KeyScan.ExpiredReturned` | src/vr_db.c:718-719 | an input for which a SCAN command returns an expired key |
| `Lzf.UnpackAppend` | src/vr_lzf_d.c:28-145 | a stream followed by another unpacks to what the second one makes of the first one's output |
| `Lzf.UnpackExactly` | src/vr_lzf_d.c:28-145 | for any bytes: a stream is read to its end exactly when it is a sequence of written instructions whose data fits and whose copies repeat bytes inside it, and gives that data |
| `Lzf.CopyMatches` | src/vr_lzf_d.c:109-141 | a back reference over equal input, overlapping or not, reproduces the input |
| `Lzf.MatchLength` | src/vr_lzf_c.c:127-170 | the match found is at least 3 and at most 264 bytes, inside the input, byte for byte equal, and cannot be longer within the limit |
| `Lzf.PutLiteral` | src/vr_lzf_c.c:223-232 | one more literal keeps the output a stream for the input so far, closing the run at 32 |
| `Lzf.PutMatch` | src/vr_lzf_c.c:126-187 | closing the run and writing the back reference for the longest match keeps the output a stream for the input so far |
| `Lzf.Finish` | src/vr_lzf_c.c:236-253 | the last bytes complete a stream for the whole input within the size bound |
| `Lzf.Compress` | src/vr_lzf_c.c:63-254 | for every content of the match table and every output limit: a result n > 0 is within the limit and n <= len + len/32 + 1, and unpacks to the input; enough room means success, and giving up means that what was read so far leaves fewer than 5 bytes |
| `Lzf.CopyRef` | src/vr_lzf_d.c:109-141 | the three ways of copying a back reference all copy byte by byte |
| `Lzf.Execute` | src/vr_lzf_d.c:30-143 | one control byte is executed as the format says, with the same errors |
| `Lzf.Decompress` | src/vr_lzf_d.c:20-148 | the result is the unpacked data, or E2BIG, or EINVAL, for every input; success exactly when the bytes are written instructions that stand for data that fits |
| `Lzf.RoundTrip` | src/vr_lzf_c.c:63-254 | whatever the match table holds, a successful compression decompresses to exactly the input |
| `RbShapes.InorderPlug` | src/vr_rbtree.c:50-327 | the order of a whole tree is what lies before a place, the subtree there, and what lies after it |
| `RbShapes.HeightBound` | src/vr_rbtree.c:104-184 | a red-black tree of n nodes is at most 2 log2(n + 1) high |
| `RbTrees.RbTree.BoundedHeight` | src/vr_rbtree.c:104-327 | the height bound, for the tree in memory after any operations |
| `RbTrees.RbTree.constructor` | src/vr_rbtree.c:15-21 | a new tree is empty and valid |
| `RbTrees.RbTree.LeftRotateLinks` | src/vr_rbtree.c:51-75 | which links of which structs a left rotation changes, and that nothing else changes |
| `RbTrees.RbTree.RightRotateLinks` | src/vr_rbtree.c:78-102 | which links of which structs a right rotation changes, and that nothing else changes |
| `RbTrees.RbTree.LeftRotate` | src/vr_rbtree.c:51-75 | the memory then spells out the rotated tree, parent links included |
| `RbTrees.RbTree.RightRotate` | src/vr_rbtree.c:78-102 | the memory then spells out the rotated tree, parent links included |
| `RbTrees.RbTree.Descend` | src/vr_rbtree.c:124-132 | the search for a place ends at an empty one behind all keys that are not larger |
| `RbTrees.RbTree.InsertRound` | src/vr_rbtree.c:142-181 | one round of re-balancing keeps the order and moves the only red-red conflict two levels up or removes it |
| `RbTrees.RbTree.InsertFix` | src/vr_rbtree.c:142-183 | re-balancing ends with a red-black tree in the same order |
| `RbTrees.RbTree.Insert` | src/vr_rbtree.c:105-184 | the node joins the order behind all nodes of smaller or equal key and in front of all others, and the tree is a valid red-black search tree again; no key changes |
| `RbTrees.RbTree.NodeMin` | src/vr_rbtree.c:24-33 | the leftmost node is the first in order |
| `RbTrees.RbTree.Min` | src/vr_rbtree.c:36-48 | nothing for an empty tree, else the first node, whose key is least |
| `RbTrees.RbTree.DeleteRoot` | src/vr_rbtree.c:207-214 | with the root gone its only child is a black root; nothing is said of the root's parent link |
| `RbTrees.RbTree.Unlink` | src/vr_rbtree.c:216-225 | a node with at most one child is taken out from under its parent |
| `RbTrees.RbTree.Substitute` | src/vr_rbtree.c:216-258 | the successor takes the node's place, colour and links, from wherever it was |
| `RbTrees.RbTree.DeleteLeft` | src/vr_rbtree.c:268-294 | one round of the fixup on the left keeps the order and either mends the black heights or moves the deficit up; the sibling is never the sentinel |
| `RbTrees.RbTree.DeleteRight` | src/vr_rbtree.c:296-323 | the mirror image |
| `RbTrees.RbTree.DeleteFix` | src/vr_rbtree.c:264-326 | the fixup ends with a red-black tree in the same order |
| `RbTrees.RbTree.Delete` | src/vr_rbtree.c:187-327 | exactly the given node is gone from the order, and the tree is a valid red-black search tree again; no other key changes |
| `HllDense.SetThenGet` | src/vr_hyperloglog.c:306-328 | writing one 6-bit register changes that register and no other |
| `HllDense.SetRegisters` | src/vr_hyperloglog.c:318-328 | the same on the whole list of registers |
| `HllDense.RegisterBit` | src/vr_hyperloglog.c:306-328 | the layout: bit j of register i is bit 6 i + j of the buffer, bytes counted from their least significant bit on |
| `HllSparse.ExpandAppend` | src/vr_hyperloglog.c:330-356 | opcode strings concatenate as the registers they stand for |
| `HllSparse.PutZeros` | src/vr_hyperloglog.c:738-760 | a run of zeros of any length up to 16384 in one or two bytes |
| `HllSparse.SplitZeros` | src/vr_hyperloglog.c:738-760 | the opcodes that replace a run of zeros with one register set stand for exactly that |
| `HllSparse.SplitVal` | src/vr_hyperloglog.c:762-776 | the opcodes that replace a run of equal values with one register changed stand for exactly that |
| `HllSparse.Locate` | src/vr_hyperloglog.c:627-662 | the opcode found is the one that covers the register, with its predecessor |
| `HllSparse.Rewrite` | src/vr_hyperloglog.c:678-776 | the new opcodes stand for the old run with the one register set |
| `HllSparse.MergeVals` | src/vr_hyperloglog.c:794-830 | joining neighbouring opcodes changes no register and never lengthens the string; two that can be joined where it starts are |
| `HllSparse.Splice` | src/vr_hyperloglog.c:779-830 | the string with the new opcodes in place, merged, differs in the one register |
| `Hlls.PatLen` | src/vr_hyperloglog.c:413-439 | in bits of the hash: the index has bits 0 to 13; all bits from 14 up to bit 13 + count are clear; that bit is set, or is bit 63 |
| `Hlls.Hll.SparseToDense` | src/vr_hyperloglog.c:537-589 | succeeds exactly for opcodes that cover 16384 registers, and then keeps every register |
| `Hlls.Hll.DenseAdd` | src/vr_hyperloglog.c:454-467 | raises the one register to the maximum; 1 exactly when it changed |
| `Hlls.Hll.SparseAdd` | src/vr_hyperloglog.c:607-851 | across split, merge and promotion the registers change as the dense form's would; 1 exactly when a register changed, -1 only for corrupt opcodes |
| `Hlls.Hll.Add` | src/vr_hyperloglog.c:996-1003 | the same whichever form the object has |
| `Hlls.Hll.PfAdd` | src/vr_hyperloglog.c:1124-1173 | the registers summarise the old elements and the new ones; the reply says whether a register changed; a valid cache is right |
| `HllSums.DenseSum` | src/vr_hyperloglog.c:473-527 | the unrolled loop computes the sum of 2^-r and the number of zero registers |
| `HllSums.SparseSum` | src/vr_hyperloglog.c:857-887 | the same from the opcodes, with corrupt lengths reported |
| `HllSums.RawSum` | src/vr_hyperloglog.c:897-923 | the same from one byte per register, eight zero registers at a time |
| `HllSums.Weight` | src/vr_hyperloglog.c:941-952 | a register r counts 2^-r |
| `Hlls.Hll.PfCount` | src/vr_hyperloglog.c:1228-1286 | the cached or newly computed value is the estimate of the current registers |
| `Hlls.Hll.Merge` | src/vr_hyperloglog.c:1013-1052 | every register becomes the maximum of both; fails exactly for corrupt opcodes |
| `Hlls.RaiseAllSummarises` | src/vr_hyperloglog.c:1124-1173 | adding elements in any order gives the registers of the set of all of them |
| `Hlls.SummaryUnique` | src/vr_hyperloglog.c:454-467 | the registers depend on the set of elements alone |
| `Hlls.MergeIsUnion` | src/vr_hyperloglog.c:1013-1052 | merging the registers of two sets gives the registers of their union |
| `Hlls.PfCountUnion` | src/vr_hyperloglog.c:1176-1226 | PFCOUNT of several keys is the estimate for the registers of the union |
| `Hlls.Hll.PfMerge` | src/vr_hyperloglog.c:1289-1347 | the target then summarises the union of all, in dense form |
| `Hlls.SameElementsSameCount` | src/vr_hyperloglog.c:936-993 | two objects given the same elements count alike, whatever their history and form |
| `Quicklists.Quicklist.InsertNode` | src/vr_quicklist.c:319-365 | the node is linked in where asked; head, tail, len and all links stay right |
| `Quicklists.Quicklist.DelNode` | src/vr_quicklist.c:546-570 | the node is linked out; head, tail, len, count and all links stay right |
| `Quicklists.Quicklist.PushHead` | src/vr_quicklist.c:447-464 | the value becomes the first element, in a new node exactly when the first one may not take it |
| `Quicklists.Quicklist.PushTail` | src/vr_quicklist.c:470-487 | the value becomes the last element, in a new node exactly when the last one may not take it |
| `Quicklists.Quicklist.SplitNode` | src/vr_quicklist.c:763-792 | the entries before and after the cut, none lost, in two nodes |
| `Quicklists.Quicklist.ZiplistMerge` | src/vr_quicklist.c:661-689 | merging two neighbours leaves the sequence as it was, whichever node survives |
| `Quicklists.Quicklist.MergeNodes` | src/vr_quicklist.c:699-742 | all merges around a node leave the sequence as it was, with no more nodes than before, and fewer when the two before it may be merged |
| `Quicklists.Quicklist.Insert` | src/vr_quicklist.c:798-916 | exactly one element is inserted, just before or after the given entry, in every full, head, split and merge case |
| `Quicklists.Quicklist.DelIndex` | src/vr_quicklist.c:580-595 | exactly the entry is gone, and its node with its last entry |
| `Quicklists.Quicklist.Index` | src/vr_quicklist.c:1192-1246 | found exactly for indices in range; node and offset name that element, negative indices counting from the tail |
| `Quicklists.Quicklist.Pop` | src/vr_quicklist.c:1291-1336 | the first or last element is taken off, nothing for an empty list |
| `Quicklists.Quicklist.DelRound` | src/vr_quicklist.c:948-1003 | one round deletes the part of the range in one node, and breaks the list exactly when the range is not clear there |
| `Quicklists.Quicklist.DelRange` | src/vr_quicklist.c:924-1005 | the range is deleted and the list stays valid if and only if the first round is clear, a condition on the node the start falls in |
| `ListCommands.TornRange` | src/vr_quicklist.c:958 | an input for which a range deletion breaks the list: nodes of three entries and one, two elements to delete from index 2 on |
| `ListCommands.Iterator.Next` | src/vr_quicklist.c:1083-1144 | each call returns the next element in the direction of travel, across nodes, until there is none |
| `ListCommands.Iterator.DelEntry` | src/vr_quicklist.c:601-628 | deleting the element just returned leaves the iterator between its neighbours |
| `ListCommands.InitIterator` | src/vr_t_list.c:55-73 | an iterator before the first or after the last element; none for an empty list |
| `ListCommands.Lrem` | src/vr_t_list.c:554-571 | exactly the first, or last, min(count, occurrences) equal elements are removed, all for 0, nothing else is, and the order of the rest is kept |
| `ListCommands.TrimSizes` | src/vr_t_list.c:497-514 | what is cut off on both sides leaves the requested slice, index by index |
| `ListCommands.Ltrim` | src/vr_t_list.c:497-522 | index by index: the elements from start to end, each counted from the front or from the back, an end past the list taken as its last element and a start before it as its first; nothing is left exactly when the start is past the end or the list |
| `ListCommands.Linsert` | src/vr_t_list.c:225-235 | the value is inserted next to the first element equal to the pivot, if there is one |
| `Decimal.String2ll` | src/vr_util.c:342-403 | accepts exactly the decimal texts of 64-bit integers, and gives their value |
| `Decimal.DigitsLength` | src/vr_util.c:240-258 | the digit count is the length of the decimal text |
| `Decimal.Ll2string` | src/vr_util.c:284-336 | writes the decimal text, or nothing when there is no room |
| `Decimal.ParsedText` | src/vr_util.c:342-403 | reading the text of a number gives the number |
| `Protocol.ArgsStep` | src/vr_client.c:1105-1194 | on any prefix of an encoded command the argument loop ends with the whole command, waits for bytes still to come, or gives up, the last exactly when expected from lengths alone |
| `Requests.Client.CountLine` | src/vr_client.c:1063-1102 | a whole count line is refused exactly when its text is no number or one above 1024*1024, one that is not there exactly when more than 64 KiB are held |
| `Requests.Client.LengthLine` | src/vr_client.c:1107-1155 | a whole length line is refused exactly when it does not start with the mark or its text is no number from 0 to 512 MB, one that is not there exactly when more than 64 KiB are held |
| `Wire.RequestGoes` | src/vr_client.c:1058-1194 | bytes that are a request are parsed into that request, whatever follows them; a count of 0 or less uses up its line and gives an empty request |
| `Wire.RequestRead` | src/vr_client.c:1058-1194 | the converse: whatever a pass yields, its bytes are a count line and that many arguments, within the limits |
| `Wire.RefusedExactly` | src/vr_client.c:1058-1194 | for any bytes: a pass closes the connection exactly when there is a bad count line, or a bad length line behind some arguments, or one that is not there with more than 64 KiB held |
| `Wire.EncodedIsRequest` | src/vr_replication.c:408-433 | what the encoder writes for a command is a request for it |
| `Requests.Client.ProcessMultibulkBuffer` | src/vr_client.c:1058-1194 | for any bytes at the start of a request: a request is yielded exactly when the first bytes are a count line and that many arguments with their length lines, all within the limits, and exactly those bytes are used up; the connection is closed exactly when the bytes are refused |
| `Requests.Pass` | src/vr_client.c:1058-1194 | one pass on a well-formed stream yields the next command, or waits, or gives up exactly when more than 64 KiB are held at an unfinished length line |
| `Requests.Client.ProcessInputBuffer` | src/vr_client.c:1196-1246 | exactly the commands that are whole are handed on, in order, and the rest is still expected |
| `Requests.ReadsNeverGiveUp` | src/vr_client.c:1255-1268 | with reads of the size the server asks for no pass ever gives up |
| `Requests.ReceiveAll` | src/vr_client.c:1196-1246 | for any cutting of the bytes into reads: the connection is closed if and only if some pass gives up, and otherwise exactly the commands sent are handed on, in order |
| `Requests.CutGivesUp` | src/vr_client.c:1108-1115 | a cut at which the connection is closed: inside the length line behind an argument of more than 64 KiB |
| `Requests.ReceiveFromSocket` | src/vr_client.c:1248-1307 | with the reads the server makes, every sequence of commands arrives complete and in order |
| `Backlogs.Backlog.constructor` | src/vr_replication.c:320-343 | an empty backlog of a given size |
| `Backlogs.Backlog.Feed` | src/vr_replication.c:320-343 | after any feeds: histlen is min(bytes fed, size), and the buffer holds the last bytes at their circular places |
| `Backlogs.Backlog.ByteAt` | src/vr_replication.c:320-343 | each offset from the backlog's first to the master offset is stored where the index says, with the byte that was fed |
| `Backlogs.Backlog.FeedCommand` | src/vr_replication.c:408-433 | the bytes fed are the protocol encoding of the command |
| `Backlogs.Backlog.Replicate` | src/vr_replication.c:362-433 | the stream is the encoding of the commands sent, with a SELECT before a command for another database |
| `Backlogs.Follow` | src/vr_replication.c:362-433 | a replica that reads the stream runs exactly the commands sent, in order |
| `ReplyQueue.Queue.constructor` | src/vr_client.c:27-99 | an empty queue |
| `ReplyQueue.Queue.AddToBuffer` | src/vr_client.c:180-195 | the bytes go to the static buffer only when that keeps the order |
| `ReplyQueue.Queue.AddToList` | src/vr_client.c:197-295 | the bytes are appended to the last node or a new one |
| `ReplyQueue.Queue.AddReply` | src/vr_client.c:302-337 | what has been sent followed by what is pending is all replies so far, in order |
| `ReplyQueue.Queue.AddDeferredLength` | src/vr_client.c:406-413 | a place for a length is kept in the order |
| `ReplyQueue.Queue.SetDeferredLength` | src/vr_client.c:416-440 | a line is filled into the place of the length, glued or not, and nothing else moves: a star, a text that reads as the length, and an end of line |
| `ReplyQueue.Queue.SendFromBuffer` | src/vr_client.c:847-858 | a partial write from the buffer moves exactly those bytes from pending to sent |
| `ReplyQueue.Queue.SendFromNode` | src/vr_client.c:859-881 | a partial write from the list moves exactly those bytes from pending to sent |
| `ReplyQueue.Queue.WriteToClient` | src/vr_client.c:838-923 | any run of partial writes conserves the replies; as long as the socket takes something everything goes out, or more than 64 KiB do; once nothing is pending exactly all replies have been sent |
| `Intsets.EncodingFits` | src/vr_intset.c:14-21 | the encoding chosen is the least that holds the value |
| `Intsets.WiderIsOutside` | src/vr_intset.c:126-149 | a value that needs a wider encoding lies outside the range of all that fit the old one |
| `Intsets.Intset.Search` | src/vr_intset.c:84-123 | binary search finds the value, or the place where it belongs |
| `Intsets.Intset.Widen` | src/vr_intset.c:135-141 | widening from the back in the same bytes never overwrites a number not yet read |
| `Intsets.Intset.UpgradeAndAdd` | src/vr_intset.c:126-149 | the numbers are the old ones with the new one at the right end |
| `Intsets.Intset.MoveTail` | src/vr_intset.c:151-170 | the tail is moved as one block, overlapping or not |
| `Intsets.Intset.Add` | src/vr_intset.c:173-200 | set union with one value at byte level, sorted and without duplicates; success exactly for a new value |
| `Intsets.Intset.Remove` | src/vr_intset.c:203-220 | set difference with one value; success exactly for a member |
| `Intsets.Intset.Find` | src/vr_intset.c:223-226 | membership |
| `PopCounts.PopCount` | src/vr_bitops.c:10-62 | for every string and alignment the count of set bits, the 28-byte step included |
| `PopCounts.CountSeven` | src/vr_bitops.c:24-57 | seven words added in parallel count the bits of 28 bytes |
| `PopCounts.CountIsSetBits` | src/vr_bitops.c:10-62 | the count is the number of positions whose bit is set |
| `BitScan.BitPos` | src/vr_bitops.c:71-149 | the first bit of the wanted value, the string padded with zeros; -1 exactly when a one is wanted and there is none; the panic line is never reached |
| `BitScan.SkipWords` | src/vr_bitops.c:97-105 | no wanted bit is skipped, and the loop stops at a word that has one or at the end |
| `Bitfields.GetUnsigned` | src/vr_bitops.c:197-209 | the number the bits spell, most significant first |
| `Bitfields.SetUnsigned` | src/vr_bitops.c:172-185 | exactly the bits of the field change, to those of the value |
| `Bitfields.GetSigned` | src/vr_bitops.c:211-219 | the field read as two's complement |
| `Bitfields.SetSigned` | src/vr_bitops.c:187-195 | the field then holds the value modulo 2^bits, other bits unchanged |
| `Bitfields.SignedReduced` | src/vr_bitops.c:187-219 | a signed value in range survives being written and read back |
| `Bitfields.CheckUnsigned` | src/vr_bitops.c:244-279 | 0 exactly when value and sum fit, -1 exactly below the range without wrapping; otherwise the modular or clamped result |
| `Bitfields.CheckSigned` | src/vr_bitops.c:281-331 | for a value in range, 0 exactly when the true sum fits, -1 exactly below the range without wrapping; otherwise the modular or clamped result |
| `Bitfields.StoreSigned` | src/vr_bitops.c:1003-1032 | SET and INCRBY on a signed field: new field, reply, failure and all other bits, for each overflow mode |
| `Bitfields.StoreUnsigned` | src/vr_bitops.c:1033-1062 | the same for an unsigned field |
| `Bitfields.TargetLaws` | src/vr_bitops.c:1003-1062 | what is stored can be held; wrapping keeps the value modulo 2^bits; saturating gives the nearest value that can be held, the largest for a negative number set unsigned |
| `Bitfields.GetField` | src/vr_bitops.c:1064-1094 | reading through the 9-byte buffer equals reading the string padded with zeros |

## Left out

- Sockets, the event loop, worker threads, locks, configuration, logging and statistics.
- Expiry cycles, eviction, blocking commands, transactions, publish and subscribe, persistence.
- `dictGetRandomKey`, `dictGetSomeKeys`, iterators and fingerprints of the dictionary; the `MATCH` option and the collection scans of `scanGenericCommand`.
- The bodies of the ziplist, string, list and sorted-set libraries, and of the hash functions.
- The floating-point estimate of `hllCount`; `PFSELFTEST` and `PFDEBUG`.
- Compression of list nodes (the server runs with depth 0), `quicklistRotate`, `quicklistDup` and `quicklistReplaceAtIndex`.
- Inline requests (`processInlineBuffer`), the limit on the query buffer, and clients that are paused, blocked or moved to another worker.
- The accounting of reply bytes and the limits of output buffers; reference counts.
- Object lifetimes: an unlinked struct of the tree stays in memory, a list node is taken out of it.
- Quicklists.Quicklist.Insert: covers entries at non-negative offsets, which are those `LINSERT` produces; the test for an entry at the tail compares the offset with the count and never succeeds, so the branches behind it are absent.
- Quicklists.Quicklist.ZiplistMerge: which of the two nodes survives is left open, since it depends on sizes inside the ziplists.
- Quicklists.Quicklist.DelNode: the 16-bit width of a node's count is not modelled.
- Dicts.Dict.Add: requires at most 2^30 entries, so that the table it may have to start stays below 2^31 buckets.
- Dicts.Dict.RehashToEnd: the time limit of `dictRehashMilliseconds` is left out.
- Bitfields.CheckSigned: 64-bit fields and values whose difference to the bounds overflows are left out, since the C code is undefined there.
- Bitfields.StoreUnsigned: a negative value that is set with saturation saturates at the top, as the code does.
- PopCounts.PopCount: the table of bit counts per byte is a function.
- ReplyQueue.Queue.WriteToClient: whether the loop stops early under the memory limit is left open; write errors are not modelled.
- Lzf.Compress: when it gives up with less room than `len + len/32 + 4` is not told from the input alone, since it depends on the match table.
- Quicklists.Quicklist.MergeNodes: which of the later merges happen is not told from the state before, since earlier ones change the sizes.
