# A disk B+tree, its iterator, and the table handler on top of it

This project models the storage engine of the repository and proves what it is meant to keep.

* `Slots.dfy`, `Trees.dfy`: the entries of a node and the tree as values. A search goes through a
  probe, the function that compares a stored key with the key searched for; entering a key is one
  recursion down and a split of a full child on the way up.
* `Blocks.dfy`, `Pool.dfy`, `Layout.dfy`: node blocks and data blocks as objects with arrays, the
  blocks of a file by index with their dirty marks and with what the file holds of them, and how a
  tree lies in them: distinct blocks, and every level chained both ways.
* `BTrees.dfy`: the class `BTree` with `put` and everything below it, proved against `Trees.Put`,
  and `save`, the destructor and `open`. `Valid` is what every operation keeps: global order, exact
  separators, uniform depth, half-full and never full nodes, chained levels, block indices handed
  out once, values still where their locations say, and every block that is not marked the same in
  the file. A block is changed only while it is marked, with one exception: `Iterator::remove`.
* `Leaves.dfy`, `Iterators.dfy`, `Forms.dfy`: the iterator over (block, index) as places in one
  physical sequence; removal and revival, which leave the form of the tree alone.
* `Scans.dfy`: whole scans with `first` and `next` and with `last` and `prev`, also while keys are
  removed through another iterator in between.
* `Files.dfy`: sessions of puts, removals and saves, then close and open; and what becomes of a
  removal through an iterator that was located before the last save.
* `Runs.dfy`: whole runs of puts and removals from the empty tree.
* `Records.dfy`, `Conditions.dfy`, `Queries.dfy`: rows as bytes, where clauses, and range query,
  delete and update.
* `SecKeys.dfy`, `Handlers.dfy`: the table handler with a primary and a shared secondary tree.
* `Checksums.dfy`, `Buffers.dfy`: the block checksum, and the write-back buffer over blocks of any
  kind.

Ghost parameters and fields (`tree`, `levels`, `img`, `stored`, `rows`) carry the values that the
blocks stand for; they decide nothing. The marks and the file are fields of the pools: a block read
from the file and not asked for yet is one that is in memory without a mark. A 64-bit pointer is
counted in the node header (34 bytes). `hide` statements only shorten proofs.

Where the code does not do what its interface suggests, the code is modelled, the exact condition is
proved, and an input is given:

* the `<= num and = x` arm of the condition merge: `Conditions.MergeExact`,
  `Conditions.WrongArmExample`;
* query, del and update of a clause: right if and only if `Queries.IsServed` holds, which is stated
  by the operators and numbers of the clause and the ids it holds of. It fails for an id that is
  absent while a greater one is there, in the wrong arm, and for the clauses that are not looked at
  (`Conditions.Unlooked`): `Queries.QueryExact`, `Queries.DeleteExact`, `Queries.UpdateExact`, with
  `Queries.QueryExample`, `Queries.DeleteExample`, `Queries.UpdateExample`;
* index_read on a secondary index: right if and only if `Handlers.IsRight` holds, which fails when
  the key itself is on the wrong side of the search key flagged 0x80, and when the search leaves its
  index: `Handlers.ReadExact`, with `Handlers.AfterRunsOn`, `Handlers.PrevRunsBack`,
  `Handlers.PrevMissesKey`;
* index_first, index_last, index_next and index_prev on a secondary index: `Handlers.NextExact`,
  `Handlers.PrevExact`, with `Handlers.FirstAndNextLeave`;
* a changed row whose new primary key is taken: `Handlers.UpdateExact`, `Handlers.UpdateLosesRow`;
* a removal through an iterator that was located before the last save: `Iterators.Iterator.Remove`,
  `Files.RemoveAndClose`, `Files.RemoveAfterSave`.

## Model

| member | source | states |
|---|---|---|
| Slots.AtIsMonotone | lib/btree.cpp:25-55 | along strictly increasing keys the comparison with any key is negative, then zero at most once, then positive, which is what the binary searches need |
| Slots.EnterSorted | lib/btree.cpp:501-534 | entering a key at its least upper bound, or reviving it there, keeps keys strictly increasing |
| Slots.EnterMap | lib/btree.cpp:501-537 | on a key that is not live, entering is exactly the update of the map of live keys |
| Slots.KillMap | lib/btree.cpp:287-289 | clearing a flag takes exactly that key out of the map of live keys |
| Slots.MapIff | lib/btree.cpp:142-149 | a key maps to a payload exactly when a live entry of that key and payload is there, once |
| Blocks.EntriesFit | lib/btree.cpp:17-23 | the capacity of a node is the greatest number of entries that end within its 4096 bytes |
| Blocks.ThreeFit | lib/btree.cpp:17-23 | a node holds at least three entries exactly when key, value and flag take at most 1354 bytes |
| Blocks.NodeBlock.Find | lib/btree.cpp:25-40 | finds the place of an equal key, or -1 exactly when there is none |
| Blocks.NodeBlock.Lub | lib/btree.cpp:42-55 | finds the number of entries below the key |
| Blocks.NodeBlock.Insert | lib/btree.cpp:69-90 | the entries from the place on move up by one and a live entry is put there; the block is never full before |
| Blocks.NodeBlock.Set | lib/btree.cpp:92-109 | overwrites flag and the parts given, nothing else |
| Blocks.PackMore | lib/block.cpp:52-67 | a value written below the free boundary overlaps no earlier value and not the directory |
| Blocks.DataBlock.FreeSizeExact | lib/block.cpp:47-50 | the free space of a data block is 4066 less the lengths of its values and four bytes for each |
| Blocks.DataBlock.Insert | lib/block.cpp:47-67 | succeeds exactly when the value fits, and keeps all earlier values |
| Blocks.GetFindsValue | lib/block.cpp:69-82 | a stored value is found at its position, whatever was stored later |
| Pool.NodePool.SplitInto | lib/btree.cpp:111-122 | the upper half goes to the new block, the lower half stays, no other block changes |
| Trees.Insert | lib/btree.cpp:495-586 | the recursion keeps balance and half-full, non-full nodes below the top, and the top grows by at most one entry |
| Trees.InsertPhys | lib/btree.cpp:495-586 | insertion below any node enters the key in the physical sequence and keeps every separator the exact greatest key of its child |
| Trees.PickSplits | lib/btree.cpp:541-548 | left of the child a search goes to all keys are smaller, and unless it is the last child its greatest key is not |
| Trees.SplitShape | lib/btree.cpp:111-122 | both halves of a full node are at least half full and not full |
| Trees.SplitKidOrder | lib/btree.cpp:562-580 | splitting a child moves no physical entry and keeps the separators exact |
| Trees.SplitLub | lib/btree.cpp:575-579 | the lower half's new greatest key belongs just before the old separator, where the insertion puts it |
| Trees.GrowRootOrder | lib/btree.cpp:594-617 | the root split keeps the physical sequence and exact separators |
| Trees.PutKeeps | lib/btree.cpp:588-620 | a whole put enters the key in the physical sequence and keeps order, separators, depth and node sizes; no node is full afterwards |
| Layout.LinkAfter | lib/btree.cpp:566-573 | linking a block in after another keeps every level chained both ways with 0 at the ends |
| Layout.InsertNoRepeat | lib/btree.cpp:566-573 | no block appears twice in the levels |
| Layout.SplitKidDistinct | lib/btree.cpp:562-580 | after a split all nodes still have blocks of their own |
| Layout.SplitRep | lib/btree.cpp:562-580 | after the writes of a split the blocks hold the split tree |
| Layout.SplitLies | lib/btree.cpp:562-580 | all of that together, at any place in the tree, with the level the new block joins |
| Layout.GrowLies | lib/btree.cpp:594-617 | the same for the root split |
| Leaves.SearchPlace | lib/btree.cpp:370-387 | the place found in the leaf a search ends in is the place in the whole physical sequence |
| BTrees.BTree.constructor | lib/btree.cpp:310-367 | a new tree is valid, empty, in block 1 of 32 |
| BTrees.BTree.GetFreeNodeBlock | lib/btree.cpp:415-429 | hands out the next index, which was never used; the size of the file is doubled exactly when all its blocks are used |
| BTrees.BTree.InsertValue | lib/btree.cpp:447-479 | succeeds exactly if the block given has room or a new one can be had, and takes a new one only then; the location denotes the value, and every earlier value stays where it was; terminates |
| BTrees.BTree.InsertLeaf | lib/btree.cpp:501-537 | 0 exactly for a live key and then nothing changes; otherwise the leaf becomes the leaf with the key entered |
| BTrees.BTree.FixSeparator | lib/btree.cpp:541-560 | the last separator becomes the child's greatest key when the key was beyond it |
| BTrees.BTree.Chain | lib/btree.cpp:566-573 | the four link writes, in terms of the blocks before |
| BTrees.BTree.SplitSon | lib/btree.cpp:562-580 | the split of a full child in the blocks is the split of the tree |
| BTrees.BTree.Insert | lib/btree.cpp:495-586 | the recursive insertion in the blocks is `Trees.Insert`, and blocks outside the subtree keep their entries |
| BTrees.BTree.SplitRoot | lib/btree.cpp:594-617 | the root split in the blocks is `Trees.GrowRoot` |
| BTrees.BTree.Put | lib/btree.cpp:588-620 | keeps `Valid`; 0 exactly for a live key and then nothing changes; 1 makes the contents old plus key to value; for a new key 1 exactly if the leaf keeps its values, or the data block of the neighbour entry has room, or a new block can be had, else -1 and the contents stay; earlier values stay readable; a key that is present in the tree leaves its form alone; it is a step of `Runs` |
| BTrees.BTree.RevivedForm | lib/btree.cpp:503-517 | a put of a removed key splits nothing and adds no node |
| BTrees.BTree.LevelsChained | lib/btree.cpp:566-573 | in a valid tree the links of the blocks of each level are the left-to-right order of its nodes |
| BTrees.BTree.IndicesAllocated | lib/btree.cpp:407-491 | child indices, links and value locations are below countOfBlock and not 0, and values are never in node blocks |
| BTrees.BTree.WellFormedSnapshot | lib/btree.cpp:588-620 | a valid tree satisfies the invariant of `Runs` |
| BTrees.BTree.LeafFacts | lib/btree.cpp:370-405 | what a leaf block holds, its neighbours, and its part of the physical sequence |
| BTrees.BTree.GetLeaf | lib/btree.cpp:370-387 | for any monotone probe: the leaf in which the place of the key is |
| BTrees.BTree.GetFirstLeaf | lib/btree.cpp:389-397 | the leftmost leaf |
| BTrees.BTree.GetLastLeaf | lib/btree.cpp:399-405 | the rightmost leaf |
| BTrees.BTree.GetValue | lib/btree.cpp:482-493 | the bytes found begin with the value stored |
| BTrees.BTree.Save | lib/btree.h:232-237 | keeps `Valid`; succeeds if and only if no write of a marked block fails; writes exactly the marked blocks it came to, in any order; a failure leaves every other marked block marked, so that the next save writes it; the metadata block and the root are marked afterwards |
| BTrees.BTree.Close | lib/btree.h:239-245 | the last save succeeds if and only if no write of a marked block fails, and of a valid tree it then leaves a file that holds the tree and its values |
| BTrees.BTree.Open | lib/btree.cpp:350-367 | opening a file that holds a tree gives a valid tree, that one, with its values and counters, and only the metadata block and the root marked |
| BTrees.BTree.ClearFlag | lib/btree.cpp:147-149 | clears one flag and leaves the form of the tree; keeps `Valid` if and only if the block is marked or the entry was removed already |
| Iterators.Iterator.Locate | lib/btree.cpp:156-203 | exact in all five modes on any valid tree, for any monotone probe: the nearest live entry accepted, or 0 exactly when there is none |
| Iterators.Iterator.First | lib/btree.cpp:205-214 | the first live entry, or 0 exactly when none is live |
| Iterators.Iterator.Last | lib/btree.cpp:216-225 | the last live entry, or 0 exactly when none is live |
| Iterators.Iterator.Next | lib/btree.cpp:227-256 | the next live entry in the physical sequence over block ends and removed entries; terminates |
| Iterators.Iterator.Prev | lib/btree.cpp:258-274 | the previous live entry; terminates |
| Iterators.Iterator.Remove | lib/btree.cpp:287-289 | the contents lose exactly the current key; keys, nodes, separators, chains and the iterator's place stay; the tree stays in step with its file if and only if the block was fetched after the last save, or the entry was removed already |
| Iterators.Iterator.GetValue | lib/btree.cpp:299-308 | bytes that begin with the value of the current entry |
| Iterators.Iterator.StaysOn | lib/btree.cpp:227-274 | an iterator over a tree whose form did not change is on the same place with the same key |
| Iterators.ExactPlace | lib/btree.cpp:175-180 | the least upper bound decides an exact lookup |
| Iterators.RightPlace | lib/btree.cpp:181-195 | the first live entry from the right starting place is the answer of a lookup to the right |
| Iterators.LeftPlace | lib/btree.cpp:186-199 | the last live entry before the right starting place is the answer of a lookup to the left |
| Iterators.FoundKey | lib/btree.h:140-157 | the entry found has the nearest accepted key among all live keys, whatever removed entries lie between |
| Iterators.PutUnder | lib/btree.cpp:501-518 | a put of the key an iterator is on leaves the iterator on its entry, whether it revives, finds it live, or fails |
| Forms.RewritePhys | lib/btree.cpp:92-109 | overwriting one leaf entry changes exactly that place of the physical sequence |
| Forms.RewriteLies | lib/btree.cpp:92-109 | and the blocks hold the changed tree with all levels chained as before |
| Forms.FormShape | lib/btree.cpp:92-109 | trees of the same form have the same balance and node sizes |
| Forms.ReviveForm | lib/btree.cpp:495-586 | entering a present key below any node splits nothing and moves nothing |
| Forms.RevivePut | lib/btree.cpp:588-620 | the same for a whole put |
| Runs.StepKeeps | lib/btree.cpp:495-620 | every put and removal keeps the tree well formed and is that step on the map of live keys |
| Runs.RunKeeps | lib/btree.cpp:495-620 | so after every run from the empty tree; the item counter is the number of puts that entered a key, that is live keys plus removals |
| Runs.RemoveThenPut | lib/btree.cpp:501-518 | removing a live key and putting it back changes its value only |
| Runs.HalfFull | lib/btree.cpp:111-122 | a half-full subtree of height h holds at least (node/2)^h * (leaf/2) keys |
| Runs.HeightBound | lib/btree.cpp:594-617 | a tree with h > 0 interior levels holds at least 2 * (node/2)^(h-1) * (leaf/2) physical keys, whatever was removed |
| Files.Session | lib/btree.cpp:350-367 | any puts, removals and saves, whichever writes fail in the saves: with a data block to spare for each command every command takes effect; if no write of the close fails the file opens again, and has the contents the commands left |
| Files.CloseAndOpen | lib/btree.h:239-245 | the close succeeds if and only if no write of a marked block fails; then the tree opened from the file is the same, with the same contents and counters |
| Files.RemoveAndClose | lib/btree.cpp:287-289 | the close succeeds if and only if no write of a marked block fails; the file holds the tree without the removed entry if the entry's block was fetched, else the tree as it was before the removal |
| Files.RemoveAfterSave | lib/btree.h:232-237 | right after a save the close writes the metadata block and the root only; the removal through an old iterator is in the file if the leaf is the root, else the file holds the entry still live |
| Scans.ScanExact | lib/btree.cpp:227-256 | a scan interleaved with any removals has strictly increasing keys, comes to no entry that is removed when reached, and to every entry that stays live |
| Scans.ScanRemoving | lib/btree.cpp:205-289 | the loop of first and next over a tree, with keys removed through a second iterator after every step: increasing keys, none removed before it was returned, every key left is among them, and nothing else is removed |
| Scans.PlainScanExact | lib/btree.cpp:205-256 | the places of a scan to the end are exactly the live entries, in order, each once |
| Scans.ScanForward | lib/btree.cpp:205-256 | the loop of first and next over a tree returns exactly the live keys in ascending order and ends |
| Scans.BackScanExact | lib/btree.cpp:216-274 | the places of a scan back to the start are the live entries in reverse order |
| Scans.ScanBackward | lib/btree.cpp:216-274 | the loop of last and prev over a tree returns the live keys in reverse order and ends |
| Scans.ForthAndBack | lib/btree.cpp:227-274 | from a live entry next and then prev come back to it |
| Scans.BackAndForth | lib/btree.cpp:227-274 | and so do prev and then next |
| Records.Encode | lib/matu.h:26-63 | the buffer written field by field is the encoding |
| Records.TotalRead | lib/matu.h:391-396 | the length at the head of an encoded row, which insert and update pass to put, is that of the whole row, if that fits u16 |
| Records.RoundTrip | lib/matu.h:26-80 | decoding an encoded row, whatever bytes follow, gives it back exactly when no string holds a NUL and all lengths fit u16; the id always survives |
| Records.DecodedParts | lib/matu.h:65-80 | of any encoded row decode reads the id and the sex, and of each string the bytes before its first NUL within the length kept |
| Conditions.MergeSelects | lib/matu.h:164-344 | the merged condition selects the ids the where clause holds of, outside one arm |
| Conditions.MergeExact | lib/matu.h:164-344 | it does for all ids if and only if the clause is not in that arm |
| Conditions.WrongArmExample | lib/matu.h:264-272 | `id <= 5 and id = 3` is merged into id = 5 |
| Conditions.MergeBounds | lib/matu.h:199-222 | merged intervals have at least two ids, the two of an OR do not meet, and an id beside a ray or another id stands apart from it |
| Conditions.MergeKind | lib/matu.h:164-344 | a clause is merged into the lookup of an id exactly if that is the only id it holds of, or it is the greatest id of the first comparison in the wrong arm; and into a kind that is not looked at exactly if it is an OR that holds of all ids or has an equality whose id the other comparison does not hold of |
| Queries.Collect | lib/matu.h:413-423 | a scan up to a bound returns exactly the rows in the interval in ascending order |
| Queries.Query | lib/matu.h:405-474 | in terms of the clause alone: a lookup of one id gives the first row from that id on, an OR that is not looked at gives none, and any other clause the rows it holds of, ascending; these are the rows of the clause if and only if `IsServed` holds |
| Queries.QueryExact | lib/matu.h:405-474 | the answer is that of the where clause itself if and only if: always for a ray, an interval, two rays with a gap, or no id; for a single id when it is there or no greater one is; in the wrong arm when the number of the equality is not there and every id is less than the greatest one the first comparison holds of; for the kinds not looked at when no row satisfies the clause |
| Queries.ServedShapes | lib/matu.h:405-474 | a clause that holds of two ids, if it is looked at, or of none is always served |
| Queries.QueryExample | lib/matu.h:443-448 | `id = 3` in a table of row 5 returns row 5 |
| Queries.DeleteScan | lib/matu.h:482-491 | removing under the moving iterator removes exactly the rows of the interval |
| Queries.Delete | lib/matu.h:476-541 | the table loses exactly the rows of the clause, or for a lookup of one id the first row from that id on, or for an OR that is not looked at none; it loses exactly the rows of the clause if and only if `IsServed` holds |
| Queries.DeleteExact | lib/matu.h:476-541 | del removes exactly the rows the where clause holds of under the same condition as for query |
| Queries.DeleteExample | lib/matu.h:511-516 | `id = 3` in a table of row 5 removes row 5 |
| Queries.DeletedIsGone | lib/matu.h:476-541 | the same query afterwards is empty, if it is not a lookup of one id |
| Queries.PutBack | lib/matu.h:612-614 | putting the changed row under the removed entry keeps the iterator on it |
| Queries.UpdateScan | lib/matu.h:606-616 | removing and putting back under the moving iterator changes each row of the interval once and no other; a changed row has the fields that `Sets` names; rows are lost only if fewer data blocks could be had than there are rows |
| Queries.Update | lib/matu.h:559-677 | each row of the clause keeps its id and has the sex, name, number and email given, as they are read back, and where none was given its old one; all other rows are as before; a lookup of one id changes the first row from that id on; none is lost if there is a data block to spare for each row; exactly the rows of the clause are changed if and only if `IsServed` holds or the rows concerned do not change at all |
| Queries.SetsGiven | lib/matu.h:543-557 | a string given is found as it was given exactly if it has no NUL and its length fits u16; setting one field leaves the others alone |
| Queries.ChangedSets | lib/matu.h:543-557 | a row of a table that is changed, encoded and decoded again has the fields given and keeps the others |
| Queries.TablePlain | lib/matu.h:65-80 | every row of a table is one that encoding gives back as it is |
| Queries.UpdateExact | lib/matu.h:559-677 | update changes exactly the rows the where clause holds of under the same condition, or when the change is none for the rows concerned |
| Queries.UpdateExample | lib/matu.h:641-648 | `id = 3` in a table of row 5 changes row 5 |
| Queries.InsertRow | lib/matu.h:391-396 | refused exactly when the id is there; otherwise the row is in the table, if a data block is to spare |
| Queries.NewTable | lib/matu.h:362-367 | an empty table |
| SecKeys.CompareParts | ha_example.cc:200-217 | negative (positive) if and only if in the first part in which the keys differ the value of the first key is the lesser (greater) one |
| SecKeys.LexFirst | ha_example.cc:200-217 | the order that all that follows is about is decided by the first part that differs |
| SecKeys.PrimaryTotal | ha_example.cc:200-217 | a total order, when each part has one |
| SecKeys.SecondKeyCompare | ha_example.cc:247-279 | for stored keys: the index number decides, then the first part of the key that differs, then the first part of the primary key that differs, by the comparators of index 0; a flagged search key is before all entries with its key, or after them |
| SecKeys.SecMeans | ha_example.cc:247-279 | the same of the order of the shared tree |
| SecKeys.EdgeMeans | ha_example.cc:254-276 | the same of the probe that a flagged search key is |
| SecKeys.SecTotal | ha_example.cc:247-279 | a total order on stored entries |
| SecKeys.EdgeMonotone | ha_example.cc:254-276 | a key flagged 0x80 or 0x40 equals no entry and stays monotone along the stored order, so the searches of the tree are right for it |
| Handlers.Handler.constructor | ha_example.cc:479-529 | two empty trees in step |
| Handlers.Handler.WriteIndexes | ha_example.cc:614-618 | none of the secondary puts of a new row can fail |
| Handlers.Handler.WriteRow | ha_example.cc:588-622 | keeps the trees in step; refused exactly for a taken primary key and then nothing changes; otherwise it succeeds if a data block is to spare |
| Handlers.Handler.DeleteIndexes | ha_example.cc:697-704 | none of the secondary lookups of a stored row can miss |
| Handlers.Handler.DeleteRow | ha_example.cc:683-708 | keeps the trees in step, removes exactly the row, and leaves a running table scan on its place |
| Handlers.Handler.UpdateRow | ha_example.cc:648-660 | keeps the trees in step; the table and the error are those of `Updated`, which leaves the old row deleted when the new one cannot be written |
| Handlers.UpdateExact | ha_example.cc:648-660 | a refused change leaves the table alone and an accepted one changes that row only, if and only if the old row is not there or the new row can take its place |
| Handlers.UpdateLosesRow | ha_example.cc:648-660 | giving one row the primary key of another is refused and the first row is gone |
| Handlers.Handler.RndPos | ha_example.cc:1055-1070 | finds a row exactly when it is there |
| Handlers.Handler.CurrentSecRow | ha_example.cc:389-397 | the row of a secondary entry is always found |
| Handlers.Handler.ReadPrimary | ha_example.cc:764-823 | each kind of primary lookup returns the nearest row accepted, or none exactly when there is none |
| Handlers.Handler.SamePrefix | ha_example.cc:220-244 | compares index number and key only |
| Handlers.Handler.ReadSecondary | ha_example.cc:752-823 | the answer is the one the index should give, found or not, if and only if `IsRight` holds, which it always does for an exact key: then a row is found if and only if one has the key, the one with the least primary key |
| Handlers.Handler.IndexRead | ha_example.cc:737-837 | dispatch on the active index, with all that is said of both kinds of lookup |
| Handlers.FirstOfKey | ha_example.cc:752-766 | a lookup to the right of a key flagged 0x80 stops at that very key exactly when some row has it, and then at the least primary key |
| Handlers.ReadExact | ha_example.cc:752-823 | over found and not found: HA_READ_KEY_OR_NEXT is right iff the index is the last one, the table is empty or some key is not less; HA_READ_AFTER_KEY iff no row has the key and the index is the last one, the table is empty or some key is greater; HA_READ_BEFORE_KEY, HA_READ_KEY_OR_PREV (no row having the key) and HA_READ_PREFIX_LAST_OR_PREV the same to the left with the first index |
| Handlers.AfterRunsOn | ha_example.cc:790-801 | HA_READ_AFTER_KEY runs on into the next index although no row has the key |
| Handlers.PrevRunsBack | ha_example.cc:778-789 | HA_READ_KEY_OR_PREV runs back into the index before |
| Handlers.PrevMissesKey | ha_example.cc:778-789 | HA_READ_KEY_OR_PREV finds nothing although the one row has the very key |
| Handlers.Handler.IndexFirst | ha_example.cc:902-922 | on the primary index the row whose key is less than every other in the first part that differs; on a secondary one the first entry of the shared tree, which is that of the index if and only if `StaysOn` holds |
| Handlers.Handler.IndexLast | ha_example.cc:935-956 | the same to the left |
| Handlers.Handler.IndexNext | ha_example.cc:839-861 | the next row or entry, also after the current one was deleted; on a secondary index it is one of that index if and only if `StaysOn` holds |
| Handlers.Handler.IndexPrev | ha_example.cc:869-889 | the same to the left |
| Handlers.NextMeans | ha_example.cc:839-922 | what the next row is, by the first parts in which primary keys differ |
| Handlers.TwoParts | ha_example.cc:839-922 | of two rows with keys [1, 9] and [2, 1] the first one is [1, 9], and [2, 1] is next after it and found by HA_READ_AFTER_KEY |
| Handlers.NextExact | ha_example.cc:839-922 | index_first finds the first entry of its own index, or none exactly when it has none, iff the index is the first one or the table is empty; index_next the next one iff the index is the last one, the table is empty or the index has an entry after the current one |
| Handlers.PrevExact | ha_example.cc:869-956 | the same for index_last and index_prev |
| Handlers.FirstAndNextLeave | ha_example.cc:839-922 | with two secondary indexes: index_first on the second and index_next on the first answer from the other one |
| Handlers.Handler.RndNext | ha_example.cc:1001-1010 | the next row by primary key, also after the one returned last was deleted, or none exactly when no row is left: HA_ERR_KEY_NOT_FOUND at the start of a scan, HA_ERR_END_OF_FILE later |
| Handlers.Handler.ScanDeleting | ha_example.cc:683-1010 | a whole table scan with rows deleted after every step: rows by increasing primary key, none deleted before it was returned, every row that stays is returned, and nothing else is deleted |
| Checksums.AddUp | lib/block.cpp:16-20 | the sum of 2048 words stays below 32 bits |
| Checksums.Fold | lib/block.cpp:23-25 | folding terminates and keeps the remainder by 0xffff |
| Checksums.Check | lib/block.cpp:29-38 | positive exactly when the word sum is positive and divisible by 0xffff (section 1 of RFC 1071) |
| Checksums.Compute | lib/block.cpp:14-27 | makes the check positive and changes no other word |
| Checksums.ChangeNoticed | lib/block.cpp:29-38 | a change of one word goes unnoticed if and only if it is between 0x0000 and 0xffff and leaves a positive sum |
| Checksums.SwapKeepsVerdict | lib/block.cpp:29-38 | swapping the bytes of all words keeps the verdict (section 2 of RFC 1071) |
| Buffers.BufferManager.GetBlock | lib/buffer.cpp:40-63 | readers see the same blocks; the block asked for is marked if and only if it was or the flag is set, and no other mark changes |
| Buffers.BufferManager.Save | lib/buffer.cpp:25-38 | of any buffer, each block is written and loses its mark, or nothing happens to it; success if and only if no write of a marked block fails, and exactly when no mark is left |
| Buffers.BufferManager.ChangeAndSave | lib/buffer.cpp:25-38 | without failing writes the save succeeds; then the file holds what readers see if the changed block was marked, else what they saw before the change |

## Left out

- BTrees.BTree.Put: block indices, counters and file offsets are unbounded; the code keeps them in 32 bits. Values of 4066 bytes or more, as for `InsertValue`.
- BTrees.BTree.GetFreeNodeBlock: allocating a node block succeeds; the code does not look at a failure there. How many data blocks can still be allocated is an input, the field `spare` of the data pool.
- BTrees.BTree.Save: which writes fail is an input, a set of block indices.
- BTrees.BTree.InsertValue: values of 4066 bytes or more are excluded, because the code then asks for new blocks without end; a data block's own `next` link is always 0, so the branch that follows it is not modelled.
- BTrees.BTree.constructor: three entries have to fit in a leaf and in an interior node; with less, a new root would be full at once.
- Queries.Update: a row whose put fails is lost, as in the code; the out-parameter names these rows. Changed rows of 4066 encoded bytes or more, as for `InsertValue`.
- BTrees.BTree.InsertLeaf: values of 4066 bytes or more, as for `InsertValue`.
- BTrees.BTree.Insert: the same.
- Iterators.PutUnder: the same.
- Files.Session: the same.
- Queries.PutBack: rows of 4066 encoded bytes or more, as for `InsertValue`.
- Queries.UpdateScan: the same, for the changed rows.
- Queries.InsertRow: the same.
- Handlers.Handler.WriteRow: rows of 4066 packed bytes or more, as for `InsertValue`.
- Handlers.Handler.UpdateRow: the same, and the old row has the secondary keys of the stored row with its primary key, as the server promises.
- Handlers.Handler.constructor: three entries have to fit in a node of each tree, as for `BTree`.
- Handlers.Handler.IndexRead: search keys have all parts of the index; the lookup by a leading part of a key is not modelled.
- Handlers.Handler.CurrentSecRow: the key-only read that restores a row from the entry itself.
- Handlers.Handler.ReadSecondary: as index_read, search keys have all parts.
- BTrees.BTree.Open: the file is one that holds a tree, as a close leaves it; the code does not check. Blocks are read when the file is opened and not when first asked for; reads succeed.
- Handlers.Handler.DeleteRow: the row passed has the secondary keys of the stored row with its primary key, as the server promises.
- Buffers.BufferManager.GetBlock: reads succeed; the code uses the block after a failed read.
- Keys are identified by the comparison: two keys that compare equal are one key. Key bytes, the index number and flag bits in one byte, padding and null bytes are not modelled.
- The byte layout of node blocks and pointer casts; capacities and free space are kept as numbers. Of a data block the bytes are modelled, with the directory apart.
- An iterator is not claimed to be usable after a put of a new key, nor on its place after a `next` or `prev` that returned 0.
- `NodeBlock::merge` and `NodeBlock::remove`, which no tree operation calls.
- Packing and unpacking of rows by the server's fields, auto-increment, locks, statistics and the other plumbing of the plugin.
- The scanning of query text for keywords and numbers; clauses start from comparisons read.
- File creation, resizing and offsets in `lib/file.cpp`; the test drivers.
