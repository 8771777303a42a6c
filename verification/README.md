# A verified model of samsung-tv-voices and its firmware tools

The repository lets the NVDA screen reader speak with the voices found in television firmware. It has three
parts with hard logic: the VDFS4 file-system tools that open firmware images (`extractor/vdfs-tools`), the
key-file reader of the firmware extractor (`extractor/unixtract`), and the speech protocol between the NVDA
driver (`addon`) and a guest program that runs the voices (`guest`). This project models that logic in Dafny
and proves what it keeps. `dafny verify dfyconfig.toml` checks it.

## How it is built

**The B+tree** is a chain of refinements. `keys`, `order` and `nodes` give the catalog comparator, one node and the
search and split inside it. `levels` joins the nodes of one level by their sibling ids into one record sequence.
`towers` stacks the levels: exactly the nodes of a set `D`, the *dangling* ones, have no index record yet, and every
other index record carries the first key of its child. `steps` proves the single steps that operations make of,
`removals` says what a removal does to the nodes of each level: what it merges, unlinks or makes the root. `btree` is
the tree as a class with the source's methods, and `maps` reads the leaf level as a map. Below it, `page` and `bnode`
are the same node as raw bytes: descriptor, records that grow up, offsets that grow down; `pagenodes` shows that the
operations on bytes are those on nodes. `pagecheck` is the check of such bytes in fsck. `bitops` finds the node id
that the tree takes next. `cattree` is the catalog on top of the tree.

**The speech protocol** (`speech`, `speechruns`, `speechlaws`, `chunks`) is a state machine with one step for each
access to a shared variable, message or engine callback. Theorems hold for every sequence of steps.

**The compressed-file container** is in `pieces`, `encoder` and `container`; **key files** are in `lexer`, `parser`,
`ukf` and `spelled`, with UTF-8 in `utf8`. **Space and bitmaps** are in `signedbits`, `space`, `difference`,
`extents`, and fsck's tree walk in `fsck`. **CRC-32** and duplicate search are in `crc` and `duplicates`. `seqs`,
`octets`, `options`, `arith` and `ranges` hold shared definitions.

## What the proofs found

- A key file is read exactly when it is a spelling of a key system with distinct names (`UkfSpelled.ReadExactly`).
- Deleting from the tree merges a sparse node exactly when its free bytes and those of its left neighbour under the same
  parent, or of the right one for a first child, fill a node (`Removals.SparseMerges`). A node that is its
  parent's only child stays sparse.
- A lookup by name fails, though a record that is not an orphan is there, exactly when the first record of the tree
  has that name and the last one of that name is an orphan (`Cattree.Catalog.Find`, `Cattree.BlindThere`). The root
  record keeps all names in directories with positive ids clear of that (`Cattree.NeverBlind`).
- Placing an entry does what is expected exactly when its key and its ilink's key are both in use or both free
  (`Cattree.PlaceExact`); a key in use without its ilink's leaves a stray ilink (`Cattree.PlaceKeeps`). Removing an
  entry whose key has its one type does what is expected exactly when the ilink's key has its one type too
  (`Cattree.RemoveExact`). With a directory cycle it need not: removing an absent entry then gives ENOENT and takes a
  hard link with it (`Cattree.CycleConfuses`). Directories that a rank orders are safe (`Cattree.RankedFits`).
- `nextChunkEnd` makes no progress exactly where the 160 bytes behind the first one are all UTF-8 continuation bytes
  (`Chunks.EmptyChunk`); the guest would then loop for ever. In UTF-8 text that cannot happen.
- The buffer computed for the free-space bitmap holds all bits exactly when the bytes of bits in the last block needed
  are more than 16 for each frame that is needed but for that block's and was not counted (`Space.BufferExact`). For
  block size 16k the least failing size is (k+1)(16k-16)+1 bytes of bits: up to one less it suffices
  (`Space.BufferSuffices`), and there k+2 blocks are needed and k+1 are there (`Space.BufferTooSmall`).
- fsck's check of a page accepts pages whose data area does not begin behind the descriptor
  (`PageCheck.PassesBadPage`). Together with that one test it accepts exactly the pages the tree can make.
- fsck's tree walk clears the error bit of a wrong record count, and stops the walk of the index node that meets it.
  Where no reachable node has that bit, an empty result means exactly that all reachable nodes are sound; where no
  reachable node has another fault, the result is empty for every index root. On every image an empty result hides a
  fault exactly when a node that the walk marked has a wrong record count (`Fsck.Walk.MarkTree`); the fault hidden can
  be a node behind it that cannot be read (`Fsck.HidesFault`).
- Adding a block that is there already is refused exactly when the first extent that ends at the block or behind it
  holds the block; if it is not refused the block set stays and the extents overlap (`Extents.RuntimeExtents.Add`).
  `Extents.AddedTwice` is a list where that happens.
- The bitmap comparison scans all data bits for blocks of 4096 bytes with 16 bytes of magic and CRC
  (`Difference.ScansAll`); for other sizes it fails exactly when it would scan behind the last one.
- Duplicate search returns 0 for "none", which a range at place 0 cannot be told from (`Duplicates.DataRanges.Find`).

## Model

| member | source | states |
|---|---|---|
| Keys.CmpIsLexicographic | extractor/vdfs-tools/lib/cattree.c:46-76 | the catalog comparator has the sign of the lexicographic order on parent id, name bytes (a prefix first) and object id |
| Order.CatalogOrder | extractor/vdfs-tools/lib/cattree.c:46-76 | the comparator is a total order: zero only for equal keys, antisymmetric, transitive |
| Nodes.BinarySearch | extractor/vdfs-tools/lib/btree.c:804-862 | the search in a node returns the one record not above the key whose successors are all above it, and fails exactly when the first record is above the key |
| Nodes.FloorUnique | extractor/vdfs-tools/lib/btree.c:804-862 | that place is unique, so the search has one right answer |
| Nodes.DealOut | extractor/vdfs-tools/lib/btree.c:1165-1273 | the halves of a split full node concatenate to the old records with the new one at its place, the left one being the fewest records that count for more than half a node; both are non-empty, both fit, and both free counts are exact |
| Levels.SplitInChain | extractor/vdfs-tools/lib/btree.c:1165-1273 | replacing a node by two linked halves keeps a sorted, doubly linked level, whose record sequence gains just the new record |
| Levels.MergeInChain | extractor/vdfs-tools/lib/btree.c:1867-1940 | joining two neighbours and relinking keeps the level sorted and linked and its record sequence the same |
| Levels.FloorInChain | extractor/vdfs-tools/lib/btree.c:1006-1099 | the floor found in one node is the floor in the whole level when the next node starts above the key |
| Towers.WalkedIsDangling | extractor/vdfs-tools/lib/btree.c:1031-1079 | a node that starts at or below the key and stands right of the child found for the key has no index record |
| Towers.EntryIsFloor | extractor/vdfs-tools/lib/btree.c:1101-1150 | the index record of a node is the floor of every key from its first key up to that of the next node that is indexed |
| Towers.RejoinUpper | extractor/vdfs-tools/lib/btree.c:2081-2249 | a level and a repaired index above it make a complete tree again |
| Steps.NewRootStep | extractor/vdfs-tools/lib/btree.c:1380-1482 | a root above the old root and its new sibling makes the tree complete and keeps the levels below |
| BTree.Btree.constructor | extractor/vdfs-tools/lib/btree.c:2647-2677 | a tree of one leaf with one record satisfies the whole invariant |
| BTree.Btree.TraverseLevel | extractor/vdfs-tools/lib/btree.c:1006-1099 | from any node of a level the walk right ends at the floor of the key in the level, and reports just the nodes walked over |
| BTree.Btree.Traverse | extractor/vdfs-tools/lib/btree.c:1101-1150 | the descent finds the floor of the key at the requested level even while some nodes are reachable only over sibling links, fails exactly when the key is below all records, and notes for indexing, level by level and with its parent item, exactly the nodes walked over to the right, all of them dangling |
| BTree.Btree.Find | extractor/vdfs-tools/lib/btree.c:1617-1658 | finds the greatest record not above the key; ENOENT exactly when all records are above it |
| BTree.Btree.NextRecord | extractor/vdfs-tools/lib/btree.c:296-322 | steps to the next record of the whole tree in order; ENOENT exactly at the last one |
| BTree.Btree.AllocBnode | extractor/vdfs-tools/lib/bnode.c:189-226 | takes the least id not in use, with a cleared node |
| BTree.Btree.DestroyBnode | extractor/vdfs-tools/lib/bnode.c:228-246 | frees just that id |
| BTree.Btree.SplitBnode | extractor/vdfs-tools/lib/btree.c:1165-1283 | a split adds the new record to the level at its sorted place, leaves exactly the new right node dangling, and keeps the levels below and the index above |
| BTree.Btree.PlaceKey | extractor/vdfs-tools/lib/btree.c:1285-1378 | places a record at its sorted place or refuses its key; splits exactly when record and slot do not fit, and then puts the one dangling node at the head of the todo list |
| BTree.Btree.BuildNewRoot | extractor/vdfs-tools/lib/btree.c:1380-1482 | does nothing if the root has changed; otherwise adds a level whose root indexes both nodes, with an id that was free |
| BTree.Btree.PlaceIndexRecord | extractor/vdfs-tools/lib/btree.c:1484-1537 | indexes the one dangling node; then the tree is complete, or exactly one node of the next level dangles and waits in the todo list |
| BTree.Btree.IndexDangling | extractor/vdfs-tools/lib/btree.c:1572-1592 | the todo loop ends, however many splits cascade, with a complete tree and unchanged records below |
| BTree.Btree.PlaceDataAtLevel | extractor/vdfs-tools/lib/btree.c:1542-1592 | inserts at the sorted place of any level and keeps the invariant at every level; on ENOENT or EEXIST nothing changes |
| BTree.Btree.Insert | extractor/vdfs-tools/lib/btree.c:1727-1735 | EEXIST exactly for a present key, ENOENT exactly for an absent one below the first record, both leaving all as it was; otherwise the tree is valid, the map gains just the record and the sequence gains it behind its floor |
| BTree.Btree.UpdateKey | extractor/vdfs-tools/lib/btree.c:1747-1814 | renames just one index record to its child's first key, through all levels above, and keeps the tree complete |
| Removals.MergedIs | extractor/vdfs-tools/lib/btree.c:1827-1956 | joining neighbours, removing the index record of the right one and freeing it leaves a level without that node, the left one holding the records of both, every other node its own |
| Removals.ParentSides | extractor/vdfs-tools/lib/btree.c:1983-2072 | the index record found for a node has one to its left in its parent exactly when the node and its left neighbour are under one parent, and so on the right |
| Removals.IndexIs | extractor/vdfs-tools/lib/btree.c:1827-1956 | the record removed one level higher after a merge or an unlinking is the index record of the node that has gone |
| Removals.SparseMerges | extractor/vdfs-tools/lib/btree.c:2202-2236 | a level below the root loses a node to a merge exactly when the node left by a removal is more than a third free and its free bytes and its partner's, left under the same parent or else right, fill a node |
| Removals.GivesWay | extractor/vdfs-tools/lib/btree.c:2202-2236 | a root above other nodes that loses one of two records gives way to the child of the other, one level lower |
| BTree.Btree.Merge | extractor/vdfs-tools/lib/btree.c:1827-1956 | two neighbours whose records fit one node become one, with the records of both; the index record of the right one is removed like any other; the level's records stay and the levels above are repaired |
| BTree.Btree.Rebalance | extractor/vdfs-tools/lib/btree.c:1983-2072 | merges the node with its left neighbour under the same parent, or as a first child with its right one, exactly when the free bytes of the two fill a node, and else changes nothing; the level then has one node less, the same records and a complete tree above |
| BTree.Btree.RemoveFromNode | extractor/vdfs-tools/lib/btree.c:2081-2249 | a node with other records loses just the one; left with more than a third free it is rebalanced, and a root left with one child gives way to it, so that a root of two records makes the tree one level lower; else nothing follows |
| BTree.Btree.RemoveEmptied | extractor/vdfs-tools/lib/btree.c:2081-2249 | a node that loses its only record leaves its level, the others keeping their records, and its index record is removed from the level above; BUG exactly for the only record of the level |
| BTree.Btree.BtreeRemove | extractor/vdfs-tools/lib/btree.c:2081-2249 | takes exactly the record with the key from a level and repairs all levels above; which nodes are renamed, merged, unlinked or give way is fixed on each level, up to the root; a root of two records always makes the tree one level lower; ENOENT exactly for an absent key |
| BTree.Btree.Collapse | extractor/vdfs-tools/lib/btree.c:2081-2249 | a root with one child gives way to just that child, a level lower, without changing the records below |
| BTree.Btree.Remove | extractor/vdfs-tools/lib/btree.c:2257-2263 | removes exactly the record with the key and keeps the whole invariant, with the merges and the root change fixed as said above; ENOENT exactly for an absent key, changing nothing; the source's BUG exactly for the only record of the tree |
| Maps.AsMapInsert | extractor/vdfs-tools/lib/btree.c:1727-1735 | inserting behind the floor of a sorted sequence is adding one entry to the map it stands for |
| Maps.AsMapRemove | extractor/vdfs-tools/lib/btree.c:2257-2263 | removing one record of a sorted sequence is removing one key from the map |
| Pages.PageUnique | extractor/vdfs-tools/lib/btree.c:201-215 | the bytes of a page determine the record sequence it stands for |
| Pages.FreeIsExact | extractor/vdfs-tools/lib/btree.c:486-491 | the free count of a page is its size without descriptor, records and offsets, the count of the node model |
| Pages.PageBytes | extractor/vdfs-tools/lib/btree.c:201-215 | where counters, offsets and records stand in the bytes of a page, and that each record holds its own length |
| Pages.LaidInsert | extractor/vdfs-tools/lib/btree.c:529-577 | a record put at the free space with its offset at any slot keeps the records tiling the data area |
| Pages.LaidDelete | extractor/vdfs-tools/lib/btree.c:704-795 | closing the gap of a record and drawing the offsets behind it down keeps the tiling, in whatever order the records lie |
| Pages.LaidMerge | extractor/vdfs-tools/lib/btree.c:1867-1905 | appending another page's data area with moved offsets keeps the tiling |
| Bnodes.Page.constructor | extractor/vdfs-tools/lib/btree.c:499-520 | a fresh page holds no records and has no siblings |
| Bnodes.Page.InsertIntoNode | extractor/vdfs-tools/lib/btree.c:529-577 | on raw bytes, refines insertion into the record sequence when there is room for record and slot; sibling ids stay |
| Bnodes.Page.PlaceIntoNode | extractor/vdfs-tools/lib/btree.c:579-632 | inserts a record of the asked length that starts with the given key bytes, its length field aside |
| Bnodes.Page.AppendBnode | extractor/vdfs-tools/lib/btree.c:634-645 | refines appending a record |
| Bnodes.Page.GetRecord | extractor/vdfs-tools/lib/btree.c:201-215 | reads back exactly the bytes of record k |
| Bnodes.Page.DeleteFromNode | extractor/vdfs-tools/lib/btree.c:704-795 | refines deletion of one record, with memmove, both offset loops and counters; refuses a too long record and then changes nothing of the records |
| Bnodes.Page.Merge | extractor/vdfs-tools/lib/btree.c:1867-1905 | refines concatenation when the free bytes of both pages fill a node, and takes over the right sibling id |
| PageNodes.NodeFree | extractor/vdfs-tools/lib/btree.c:486-491 | however records are read, a page is a node whose free count is the one the tree's invariant asks for |
| PageNodes.FreshNode | extractor/vdfs-tools/lib/btree.c:499-520 | a fresh page is an empty node |
| PageNodes.InsertedNode | extractor/vdfs-tools/lib/btree.c:529-577 | inserting into a page is inserting into its node, free count and sibling ids included |
| PageNodes.DeletedNode | extractor/vdfs-tools/lib/btree.c:704-795 | deleting from a page is deleting from its node |
| PageNodes.MergedNode | extractor/vdfs-tools/lib/btree.c:1867-1905 | merging two pages is the node that the tree makes of their two nodes |
| PageCheck.CheckBnodeRecords | extractor/vdfs-tools/fsck/fsck_corruption_check.c:798-851 | the bytes are a page of the tree, for some records, if and only if the check reports nothing and the data area begins behind the descriptor with records no shorter than a key header |
| PageCheck.SortIs | extractor/vdfs-tools/fsck/fsck_corruption_check.c:833 | sorting keeps the offsets, and they rise strictly exactly when no offset comes twice |
| PageCheck.LaidSteps | extractor/vdfs-tools/fsck/fsck_corruption_check.c:834-847 | in a good page each sorted offset is the end of the record before it |
| PageCheck.AcceptedGood | extractor/vdfs-tools/fsck/fsck_corruption_check.c:834-847 | sorted offsets that agree with the record lengths make records that tile the data area |
| PageCheck.PassesBadPage | extractor/vdfs-tools/fsck/fsck_corruption_check.c:798-851 | a page that no records make, yet the check accepts |
| Bitops.Ffs | extractor/vdfs-tools/lib/bitops.c:30-59 | five halvings find the lowest set bit of every non-zero word |
| Bitops.FindFirstZeroBit | extractor/vdfs-tools/lib/bitops.c:63-84 | the least clear bit of the first `size` bits, or `size` when all are set, with a partial last word |
| Bitops.FirstFreeId | extractor/vdfs-tools/lib/btree.c:2597-2607 | for the bitmap of any set of ids it is the least id not in the set, as the tree's allocation needs |
| Cattree.LinkedBothWays | extractor/vdfs-tools/lib/cattree.c:346-397 | in every catalog a folder, file or data link of another directory, the root directory aside, is there exactly when the ilink of object, name and parent is |
| Cattree.RecordLengths | extractor/vdfs-tools/lib/cattree.c:284-327 | key and record lengths of every record type |
| Cattree.OrphanBit | extractor/vdfs-tools/lib/cattree.c:119-131 | exactly bit 12 of the little-endian flags of a folder, file or data link makes it an orphan |
| Cattree.BothOrNone | extractor/vdfs-tools/lib/cattree.c:346-397 | where every key keeps one record type, an entry and its ilink are both there or both missing |
| Cattree.PlacedOk | extractor/vdfs-tools/lib/cattree.c:346-397 | placing an entry with its ilink keeps ilinks the exact reverse index of entries |
| Cattree.TakenOk | extractor/vdfs-tools/lib/cattree.c:465-496 | so does taking an entry with its ilink |
| Cattree.RankedFits | extractor/vdfs-tools/lib/cattree.c:378-397 | in directories that a rank orders, no ilink key is in use as an entry |
| Cattree.RankedStays | extractor/vdfs-tools/lib/cattree.c:346-496 | placing and removing entries keeps the directories ranked, so the premise holds over whole runs |
| Cattree.PlaceExact | extractor/vdfs-tools/lib/cattree.c:346-397 | for every map, placing ilink and entry gives EEXIST unchanged or both records exactly when the two keys are both in use or both free |
| Cattree.PlaceKeeps | extractor/vdfs-tools/lib/cattree.c:346-397 | placing keeps a catalog in order except exactly when the entry's key is in use and its ilink's is free |
| Cattree.RemoveExact | extractor/vdfs-tools/lib/cattree.c:465-496 | where the entry's key has its one type, removing takes exactly entry and ilink, or nothing, if and only if the ilink's key has its one type, that is if both keys are in use or both free |
| Cattree.RemoveKeeps | extractor/vdfs-tools/lib/cattree.c:465-496 | removing keeps a catalog in order even where it takes the wrong record, unless that is the root record |
| Cattree.CycleConfuses | extractor/vdfs-tools/lib/cattree.c:465-496 | a catalog with a cycle where removing an absent entry gives ENOENT and takes a hard link, and placing it is refused |
| Cattree.BlindThere | extractor/vdfs-tools/lib/cattree.c:196-265 | a sorted sequence with a live record of a name that the lookup does not find |
| Cattree.NeverBlind | extractor/vdfs-tools/lib/cattree.c:196-265 | with the root record there, no name in a directory of positive id is missed |
| Cattree.Catalog.constructor | extractor/vdfs-tools/lib/cattree.c:607-644 | a fresh catalog holds just the root directory and is valid |
| Cattree.Catalog.FindInode | extractor/vdfs-tools/lib/cattree.c:161-190 | finds the record of a full key exactly when it is there |
| Cattree.Catalog.Find | extractor/vdfs-tools/lib/cattree.c:196-265 | returns a record of that parent and name that is not an orphan if and only if one exists, save in the one case named above, however orphans are interleaved; in a catalog, for positive directory ids, without exception |
| Cattree.Catalog.PlaceRecord | extractor/vdfs-tools/lib/cattree.c:346-397 | what it leaves in every catalog: for a folder, file or data link of another directory the ilink and the record, for a hard link or a directory's own entry just the record, and which of them when a key is in use; when the catalog stays its own reverse index; where both keys have one type each, EEXIST exactly for a present key, changing nothing |
| Cattree.Catalog.Remove | extractor/vdfs-tools/lib/cattree.c:465-496 | what it leaves in every catalog: the same records go, the ilink first; where both keys have one type each, ENOENT exactly for an absent key and for the root record, changing nothing |
| Chunks.EmptyChunk | guest/samsung_guest.cpp:151-168 | for all bytes, exactly when a chunk is empty |
| Chunks.ChunkPlaced | guest/samsung_guest.cpp:151-168 | for all bytes, where a chunk ends: a rest of up to 160 bytes is one chunk, a longer one is cut behind the last space, newline or tab of its second half, or else at the last place that begins a character |
| Chunks.ChunkIsUtf8 | guest/samsung_guest.cpp:151-168 | in UTF-8 text a chunk is not empty, at most 160 bytes, ends on a character boundary and is UTF-8 itself |
| Chunks.BreaksAtLastWhitespace | guest/samsung_guest.cpp:151-168 | a long chunk with whitespace in its second half ends behind the last one |
| Chunks.ChunksMakeText | guest/samsung_guest.cpp:170-238 | the chunks of UTF-8 text are non-empty, UTF-8, and concatenate to the text |
| Chunks.NextChunkEnd | guest/samsung_guest.cpp:151-168 | the loops compute the chunk end that the other theorems are about |
| TextCoding.TextRead | addon/synthDrivers/samsungTVVoices.py:647-661 | every text is read back from its UTF-8 bytes by a decoder of its own, so different texts have different bytes |
| TextCoding.TextIsUtf8 | addon/synthDrivers/samsungTVVoices.py:647-661 | the bytes of every text that the driver sends are a character sequence in the sense of the guest's chunks |
| TextCoding.AsciiBytes | extractor/unixtract/src/ukf.rs:202-216 | a text of characters below 128 is one byte for each, in order |
| TextCoding.TextBytesAppend | extractor/unixtract/src/ukf.rs:202-216 | the bytes of two texts one behind the other are one behind the other |
| SpeechRuns.RunInv | guest/samsung_guest.cpp:114-304 | in every run of both programs, whatever the order of steps, the request of a live generation is in transit, at work with its audio adding up, or answered |
| SpeechRuns.DoneIsComplete | addon/synthDrivers/samsungTVVoices.py:647-692 | when the driver takes DONE for a generation that was not cancelled, the audio it fed is exactly that of the request's chunks in order, none missing and none of another request |
| SpeechRuns.FedIsPrefix | addon/synthDrivers/samsungTVVoices.py:647-692 | at every moment of such a request the audio fed is a prefix of the request's |
| SpeechLaws.CancelledNotFed | addon/synthDrivers/samsungTVVoices.py:647-692 | in every run, once the generation of a request is cancelled the player gets no more audio for it, however the run goes on |
| SpeechLaws.FedOnlyWhenCurrent | addon/synthDrivers/samsungTVVoices.py:681-683 | audio reaches the player only in the step that takes it from the queue, for the request waited for, and only while its generation is current |
| SpeechLaws.TextsInOrder | addon/synthDrivers/samsungTVVoices.py:694-716 | in every run the texts of an utterance are requested in their order, each once and behind the DONE for the one before |
| SpeechLaws.CancelNames | addon/synthDrivers/samsungTVVoices.py:592-608 | a cancel while the driver waits for a request makes its generation stale and sends the guest a cancel of just that generation |
| SpeechLaws.CancelTaken | guest/samsung_guest.cpp:240-246 | a cancel of the generation being spoken raises the guest's cancel flag |
| SpeechLaws.CancelSilences | guest/samsung_guest.cpp:114-238 | with the flag up and no callback past it, the guest sends neither audio nor an answer for the job any more, however the run goes on |
| SpeechLaws.AnswerEnds | addon/synthDrivers/samsungTVVoices.py:677-692 | an answer to a request, stale or not, ends the wait for it for good; DONE goes on with the next text, the others give up the utterance |
| SpeechLaws.CancelDrains | addon/synthDrivers/samsungTVVoices.py:592-608 | when a cancel goes on from emptying the queue of the driver, nothing is queued |
| SpeechLaws.SpeakIsSent | addon/synthDrivers/samsungTVVoices.py:569-716 | an utterance handed to an idle driver makes it send the first text to the guest, under the current generation, and wait for it |
| SpeechLaws.WorkerFinishes | guest/samsung_guest.cpp:170-238 | left to itself the guest comes to the end of every UTF-8 text and is about to report DONE |
| SpeechRuns.RequestNotLost | addon/synthDrivers/samsungTVVoices.py:565-692 | a request that was not cancelled is on its way, at work with the cancel flag down, or answered, in every run |
| SpeechRuns.VoicedByChunks | guest/samsung_guest.cpp:170-238 | the audio of a request is one piece for each chunk, in order |
| SpeechRuns.WorkerTally | guest/samsung_guest.cpp:114-238 | one step of the guest's worker keeps the sum of audio sent and audio still to come |
| Pieces.ArrangedTiles | extractor/vdfs-tools/lib/compress.c:313-343 | pieces written in any order, each noted where it starts, tile the file |
| Encoder.CompressedWhen | extractor/vdfs-tools/lib/compress.c:195-242 | a chunk is compressed exactly when the file has two blocks or more and the compressor makes less than 76 percent of it |
| Encoder.WrittenIs | extractor/vdfs-tools/lib/compress.c:244-343 | what is written of a chunk: its bytes or the compressor's, with the zeros that the hardware formats ask for |
| Encoder.Encoding.FinishChunk | extractor/vdfs-tools/lib/compress.c:244-376 | one thread's part keeps each temporary file the concatenation of its pieces, with true table entries |
| Encoder.Encoding.FinishAll | extractor/vdfs-tools/lib/compress.c:244-376 | every order in which the threads finish all chunks leaves both files complete |
| Encoder.Encoding.MoveCompressed | extractor/vdfs-tools/lib/compress.c:731-735 | only the starts of compressed chunks move, by the length of the stored part |
| Encoder.Encoding.CopyStored | extractor/vdfs-tools/lib/compress.c:786-826 | stored chunks are copied in the order of the file, with padding, and the table follows them |
| Encoder.Encoding.Layout | extractor/vdfs-tools/lib/compress.c:639-900 | for every finish order the final table describes disjoint ranges that tile the data area, range i holding the stored bytes of chunk i |
| Encoder.Encoding.LayoutTune | extractor/vdfs-tools/lib/compress.c:450-607 | the same for the tool that writes stored chunks as they come |
| Container.ExtentRoundTrip | extractor/vdfs-tools/lib/decompress.c:108-175 | a table entry is read back as it was written, and where its fields stand |
| Container.TableEntry | extractor/vdfs-tools/lib/compress.c:65-192 | entry i stands at its place in the table |
| Container.DescriptorFields | extractor/vdfs-tools/lib/compress.c:404-447 | every field of the descriptor is read back: signing kind, codec, chunk count, version, unpacked size, checksum and chunk size |
| Container.SplitConcat | extractor/vdfs-tools/lib/compress.c:639-900 | the chunks of a file are non-empty, at most a chunk size, and concatenate to it |
| Container.EncodeFile | extractor/vdfs-tools/lib/compress.c:986-1125 | for every finish order the file written is an encoding of the source: tiling data area, padding, table, hashes, and a descriptor that gives the source's length as the unpacked size and the checksum passed in; it fails exactly when the written chunks together are too long |
| Container.ReadDescriptorInfo | extractor/vdfs-tools/lib/decompress.c:108-175 | succeeds exactly on files with a known descriptor, version and signing byte and a table inside, says exactly when a file counts as not compressed and when as invalid, and returns the entries found from the file end |
| Container.TableFound | extractor/vdfs-tools/lib/decompress.c:108-175 | the table place computed from the end of an encoded file is where the writer put it, for every signing hash |
| Container.ChunksFound | extractor/vdfs-tools/lib/decompress.c:211-277 | every table entry of an encoded file leads to bytes that unpack to its chunk |
| Container.DecompressFile | extractor/vdfs-tools/lib/decompress.c:211-277 | for any table, the unpacked chunks up to the first extent without bytes, or an error exactly when one before it cannot be unpacked |
| Container.OutputIs | extractor/vdfs-tools/lib/decompress.c:211-277 | where every extent leads to bytes that unpack to a chunk, that is the concatenation of the chunks |
| Container.EncodedDecodes | extractor/vdfs-tools/lib/decompress.c:301-342 | what an encoder has written for any finish order decodes to the source |
| Container.DecodeFile | extractor/vdfs-tools/lib/decompress.c:301-342 | on any file, succeeds exactly when descriptor and table are accepted and the extents unpack, and returns what they unpack to; for an encoded file that is the original, for every mix of stored and compressed chunks, given a codec that undoes itself up to trailing zero bytes |
| Container.RoundTrip | extractor/vdfs-tools/lib/decompress.c:301-342 | encoding and then decoding gives the file back, for every non-empty file of fewer than 65536 chunks, finish order, signing hash and codec that undoes itself |
| UkfLexer.RenderRead | extractor/unixtract/src/ukf.rs:104-160 | every spelling of a token sequence, with any whitespace and comments between, is lexed back to it |
| UkfLexer.TokenRead | extractor/unixtract/src/ukf.rs:104-160 | the text of one token is read back as that token and nothing more |
| UkfLexer.GapSkipped | extractor/unixtract/src/ukf.rs:104-120 | whitespace and newline-ended comments are skipped up to the next token |
| UkfLexer.Lexer.Tokenize | extractor/unixtract/src/ukf.rs:104-160 | the loop over the input computes the lexing that the theorems are about |
| UkfParser.Parser.ParseKeyBlock | extractor/unixtract/src/ukf.rs:202-242 | the loop reads one key block, with its forms and optional commas, and stops behind it |
| UkfParser.Parser.Parse | extractor/unixtract/src/ukf.rs:243-298 | the loop reads entries into the system and fails on a duplicate, as the theorems describe |
| Ukf.EntriesRead | extractor/unixtract/src/ukf.rs:243-298 | reading on from any point gives the system of all entries, or an error exactly when a name comes twice |
| Ukf.DescribesOne | extractor/unixtract/src/ukf.rs:167-298 | entries describe one system only |
| Ukf.Init | extractor/unixtract/src/ukf.rs:30-36 | lexer and parser in turn compute the reading that the theorems are about |
| Ukf.RoundTrip | extractor/unixtract/src/ukf.rs:30-36 | every spelling of a key system, with any gaps and optional commas, is read back as exactly that system |
| Ukf.DuplicatesRefused | extractor/unixtract/src/ukf.rs:243-298 | a repeated key or collection name is an error in every spelling |
| Ukf.HexRoundTrip | extractor/unixtract/src/ukf.rs:193-201 | bytes written as hex digits, with whitespace anywhere, are read back |
| UkfSpelled.LexedIsSpelled | extractor/unixtract/src/ukf.rs:104-160 | whatever the lexer accepts is a spelling of the tokens it returns |
| UkfSpelled.ParsedIsEntries | extractor/unixtract/src/ukf.rs:243-298 | whatever tokens the parser accepts are those of keys and collections |
| UkfSpelled.ReadExactly | extractor/unixtract/src/ukf.rs:30-36 | a text is read as a key system if and only if it is a spelling of that system; every other text is an error |
| UkfSpelled.HexExactly | extractor/unixtract/src/ukf.rs:217-231 | a hex string is read as bytes if and only if, but for case and whitespace, it is their digits |
| UkfSpelled.NoSpacesAppend | extractor/unixtract/src/ukf.rs:217-231 | exactly the whitespace characters of a hex string are dropped |
| Fsck.Walk.FirstNotVisited | extractor/vdfs-tools/fsck/fsck_corruption_check.c:997-1042 | returns the first child that is in range and not marked, or none only when all are marked; the record bit is set exactly when a record before it cannot be read, the structure bit exactly when one has a bad key |
| Fsck.Walk.Dfs | extractor/vdfs-tools/fsck/fsck_corruption_check.c:1044-1094 | ends on every image, cycles included; marks only what is reachable; gives no error for sound nodes and marks all below them; without wrong record counts an empty result means sound nodes; wrong record counts alone leave an index node's result empty |
| Fsck.Walk.MarkTree | extractor/vdfs-tools/fsck/fsck_corruption_check.c:1114-1175 | when no reachable node has a fault, the marked ids are exactly the head and what the root reaches; when none has a wrong record count, the result is empty if and only if all are sound; every error bit comes from a reachable node that has just that fault; on every image an empty result hides a fault if and only if a marked node has a wrong record count; when none has another fault, the result is empty for an index root |
| Fsck.HidesFault | extractor/vdfs-tools/fsck/fsck_corruption_check.c:1064-1076 | an image where the walk reports nothing though a node that the root reaches cannot be read, and leaves it unmarked |
| SignedBits.LowestFirst | extractor/vdfs-tools/lib/utils.c:164-188 | the bits of a byte are counted from the lowest |
| SignedBits.PlaceInjective | extractor/vdfs-tools/lib/utils.c:164-188 | different data bits stand at different places of the buffer |
| SignedBits.FramingKept | extractor/vdfs-tools/lib/utils.c:198-245 | setting or clearing data bits never touches magic or CRC bytes |
| SignedBits.SignPutBits | extractor/vdfs-tools/lib/utils.c:198-301 | exactly the data bits of the range change, across blocks; an error exactly when the range leaves the bitmap |
| SignedBits.SignTestBit | extractor/vdfs-tools/lib/utils.c:164-188 | returns the data bit, or an error exactly behind the last one |
| Space.BufferExact | extractor/vdfs-tools/lib/space_manager.c:258-270 | for every size and every block size, exactly when the computed buffer holds all bits |
| Space.BufferSuffices | extractor/vdfs-tools/lib/space_manager.c:258-270 | up to (k+1)(16k-16) bytes of bits the computed buffer holds them all |
| Space.BufferTooSmall | extractor/vdfs-tools/lib/space_manager.c:258-270 | for every block size, one byte of bits more than the bound takes a block more than the buffer has |
| Space.SplicedBlocks | extractor/vdfs-tools/lib/space_manager.c:174-228 | replacing a run by the parts left takes exactly the granted blocks out of the free ones |
| Space.SplicedSum | extractor/vdfs-tools/lib/space_manager.c:174-228 | the total of the list shrinks by the granted length |
| Space.SpaceManager.constructor | extractor/vdfs-tools/lib/space_manager.c:238-295 | at first all blocks are free and nothing is granted |
| Space.SpaceManager.PutSorted | extractor/vdfs-tools/lib/space_manager.c:33-60 | a run goes behind all that do not start behind it |
| Space.SpaceManager.Shrink | extractor/vdfs-tools/lib/space_manager.c:96-104 | a run is advanced or shortened, and dropped when empty |
| Space.SpaceManager.Split | extractor/vdfs-tools/lib/space_manager.c:174-228 | taking a run out of the middle puts both ends back where the run was |
| Space.SpaceManager.GetFreeSpace | extractor/vdfs-tools/lib/space_manager.c:174-228 | grants blocks never granted before, at the place asked for or by first fit; fails exactly when no run has room, changing nothing; the list stays sorted and disjoint, free and granted blocks partition the volume, the count is the list total, and a data bit is set exactly for granted blocks |
| Space.SpaceManager.AllocateSpace | extractor/vdfs-tools/lib/space_manager.c:308-321 | the same for callers, over every run of allocations |
| Difference.CalculateDifference | extractor/vdfs-tools/fsck/fsck.c:392-485 | reports exactly the maximal runs of differing bits in order, at most one for two bits, with lengths that sum to the difference count; succeeds exactly when no bit differs |
| Difference.RunsUnique | extractor/vdfs-tools/fsck/fsck.c:392-485 | bits have one list of maximal runs, so the report is determined |
| Difference.ScansAll | extractor/vdfs-tools/fsck/fsck.h:70 | for blocks of 4096 bytes all data bits are compared |
| Crc.TableLiterals | extractor/vdfs-tools/lib/crc32.c:302-339 | entry 1 of each table made by the recurrence is the literal of the source |
| Crc.WordStepIs | extractor/vdfs-tools/lib/crc32.c:302-339 | the step by four tables is four byte steps, for every value |
| Crc.FourBytes | extractor/vdfs-tools/lib/crc32.c:302-339 | four byte steps are four steps on the CRC with the little-endian word in it |
| Crc.Crc32Body | extractor/vdfs-tools/lib/crc32.c:302-339 | for every buffer, alignment and start value, the word loop equals the CRC a byte at a time |
| Crc.CrcAppend | extractor/vdfs-tools/lib/crc32.c:343-346 | the CRC of two pieces is that of the second from that of the first |
| Duplicates.CalculateFileCrc | extractor/vdfs-tools/lib/crc32.c:348-375 | the CRC of the whole file, or of all but its last block |
| Duplicates.DataRanges.Compare | extractor/vdfs-tools/lib/disk_op.c:695-744 | tells exactly whether the data differ, and caches the CRC of the range |
| Duplicates.DataRanges.Find | extractor/vdfs-tools/lib/disk_op.c:695-744 | returns the first range in list order with equal length and bytes although ranges with other CRCs are skipped, and keeps all cached CRCs true |
| Extents.CountIsSize | extractor/vdfs-tools/lib/extents.c:615-625 | the sum of the counts of disjoint extents is the number of blocks |
| Extents.SplicedOk | extractor/vdfs-tools/lib/extents.c:531-601 | replacing extents by parts with their blocks or new ones keeps the list disjoint |
| Extents.BlockAdded | extractor/vdfs-tools/lib/extents.c:471-529 | replacing extents by parts with one more block adds it to the block set, and keeps the list disjoint exactly when it was absent |
| Extents.AddedTwice | extractor/vdfs-tools/lib/extents.c:471-529 | a list in which a present block would be added again |
| Extents.RuntimeExtents.Add | extractor/vdfs-tools/lib/extents.c:471-529 | adds exactly the block to the block set, by growing, joining or a new extent, and keeps the extents disjoint exactly for an absent one; refuses exactly as said above |
| Extents.RuntimeExtents.Del | extractor/vdfs-tools/lib/extents.c:531-573 | takes exactly a present block out, from either end or the middle; reaches the BUG exactly for an absent one |
| Extents.RuntimeExtents.Truncate | extractor/vdfs-tools/lib/extents.c:577-601 | keeps exactly the blocks below the new size and returns how many went |
| Extents.RuntimeExtents.Exists | extractor/vdfs-tools/lib/extents.c:602-613 | membership in the block set |
| Extents.RuntimeExtents.CountBlocks | extractor/vdfs-tools/lib/extents.c:615-625 | the cardinality of the block set |

## Left out

Tree and pages:

- BTree.Btree.Insert: starts from trees without dangling nodes. From others the todo loop can step past the head of the
  path, since `place_key_in_bnode` compares a level number of the path with a height that has changed.
- BTree.Btree.Rebalance: the exits for dangling siblings, and those of `btree_update_key` and `build_new_root`, cannot
  be reached without dangling nodes and are not modelled.
- BTree.Btree.SplitBnode: the restore path for a next sibling that cannot be fetched.
- BTree.Btree.AllocBnode: the bitmap of node ids is a set without end; `Bitops.FirstFreeId` shows which id the finite
  bitmap gives. Growth of the node array is not modelled.
- Levels are numbered from 0, in the source from 1. A tree node holds keys and values; their bytes are in the page
  layer only. The value that a caller writes after an insertion is part of the insertion here.
- Node sizes are at least 1024 bytes, and a record with its slot takes at most an eighth of a node, as the tree types of
  the source do. `free_space` is 16 bits wide; it cannot wrap for nodes of at most 65536 bytes, which pages assume.
- `build_new_root` looks at the siblings before it allocates the root; the order does not matter to the result.
- The offset checks in the page part of `btree_merge` always pass and are not modelled.
- PageCheck.CheckBnodeRecords: `qsort` is a sorting function; 32-bit differences of offsets below 65536 are plain ones.
- Dirty flags, reference counts, locks, memory failures and nodes that are read from a volume.

Catalog:

- Cattree.Catalog.PlaceRecord: asks for entry record types, names shorter than 256 bytes and positive ids.
- Record values other than their type; the root record has no ilink and is exempt from the reverse index.

Speech:

- Messages arrive whole; testing the generation and feeding the player is one step. Timeouts become a restart that may
  happen at any time while the driver waits for an answer, and a fresh start one that may happen before a request is
  sent; both drop the queues. Generations do not wrap. Speak and cancel come from one thread.
- The engine is any function of request, chunk and callback number. Index events, volume, settings, READY, QUIT,
  process start and the player itself. Texts that are sent are not empty, and bytes in UTF-8, as `TextCoding.TextIsUtf8`
  says all encoded texts are.

Container:

- Container.DecodeFile: the container ends where the file ends; hash tables, signatures and checksums are parameters.
- The description of an encoded file holds below 65536 chunks, the width of the chunk count.
- Container.EncodeFile: the one write that fails is for a data area past the greatest file offset; writes that fail for
  other reasons, such as a full disk, are not modelled.
- Container.ReadDescriptorInfo: a table that would begin before the file is an error here; the source goes on with
  counts it has not set.
- An empty file is refused before encoding. Files, threads and locks are appends in any order of the chunks.

Key files:

- Line numbers, which occur in error messages only. Which characters are letters or whitespace beyond ASCII is a
  parameter. Access functions of `KeySystem`.

fsck and space:

- Fsck.Walk.MarkTree: the checks of one node are a parameter; the order and link checks behind the walk are left out.
- SignedBits.SignPutBits: asks for buffers of whole blocks with room for magic, CRC and a bit, as all its callers have.
- SignedBits.SignTestBit: the same.
- Difference.CalculateDifference: `leakage_type`, which is not set for a last run; both bitmaps are whole blocks, the
  result is a sequence that grows instead of arrays of fixed length, and the loops over bytes and bits are one loop.
- Space.SpaceManager.AllocateSpace: images that are read-only, signing the buffer, and freeing the list at the end.
- `iblock_to_mblock_for_conversion` and `fill_inode_bitmap`.
- Bitops.FindFirstZeroBit: the buffer holds whole words, which the source reads in any case.

CRC and duplicates:

- Crc.Crc32Body: tables are defined by their recurrence; only entry 1 of each is compared with the literals.
- Duplicates.DataRanges.Find: failing reads, which leave part of a CRC in the cache.

Extents:

- Extents.RuntimeExtents.Add: starts from disjoint extents; allocation hints and widths of counts.

Other parts of the repository (settings panels, updater, downloads, archives, RSA and hash internals, zlib and LZO,
command lines, directory walking, printing, other firmware formats) are not modelled.
