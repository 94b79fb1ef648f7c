# Two storage engines and a container library, verified

This project models the hard parts of three programs and proves what they
promise: Depot, a hash database in a single file; the GNUpdate database, a
B+Tree in a file of blocks; and the algorithms of Cabin, a container library.
`dafny verify dfyconfig.toml` checks all of it.

**Depot** keeps a file that is three things at once: a row of records without
gaps between them, a forest of binary search trees whose nodes are some of
those records, and a pool of regions to be used again. `DepotSpace` says what
it means for the row and the pool to be sound and proves that every way of
writing a record keeps both. A pool entry is a *run* of whole reusable records,
not one record: when a record that absorbed its neighbours is moved all the
same, only its flags word is written, and no header on disk knows the region
the pool gets. `HashIndex` does the same for the trees, where moving a record
means redirecting one pointer. `Depot` is the database itself, a class whose
methods follow the functions of the program; the invariant `Valid` ties file,
trees, pool and record count together, and `Contents` is the map the file
stands for. `DepotTools` has whole runs, rebuilding and repairing, `DepotDump`
the portable dump and its way back.

**The B+Tree** is a map from offsets to node objects with arrays for keys and
children; reading one offset twice gives one object. `BTreeShape` defines the
tree that the nodes spell out and when it is correct: strictly ascending keys
between the separators around them, equal depth, minimum fill, capacity, leaf
links, and no node outside the tree. Separators may be stale. `BTreeNode` has
the loops that shift and move array elements, `BTreeGrow` and `BTreeShrink`
what inserting, splitting, borrowing, merging and a shrinking root do to
subtrees, `BTree` the operations, `BTreeScan` traversal along the leaf links
and whole runs. Every order from 3 on is covered.

**The blocks** under the tree: `BlockSpace` and `BlockFile` are the allocator,
`BlockChain` writes and reads one block that is larger than its block size,
`BlockStore` and `BlockHistory` many of them over any history. `NodeCodec` and
`NodeBlock` turn a node into bytes and back, `NodeStore` puts both together.

**Cabin**: `CabinMap` (with `CabinList` and `HashRemoval`) is a hash map whose
buckets are search trees and whose records are threaded in the order of their
insertion, over an explicit memory of records; `CabinSearch`, `CabinSort`,
`CabinHeap` and `CabinCsv` are its algorithms.

Keys of the ordered structures have a real-valued rank (`ByteOrder`): the
comparison functions are proved to order by it and by the bytes of the keys, and
everything above reasons with `<` on reals. `Arithmetic` has what the verifier
does not know about division.

## Results that differ from what one might expect

- The table of the KMP search is made of signed chars. The search is right on
  all haystacks if and only if every proper border before the last position of
  the needle is below 128 (`CabinSearch.KmpIsRightExactly`); up to 128 bytes a
  needle has no longer one, and `BordersCanMisfit` and `KmpMisses` give
  failing inputs.
- A node of the tree holds the sizes of its keys, and inserting a key moves those
  behind it through a variable of type char. They stay right if and only if each
  of them survives that (`BTreeNode.AddedSizes`, `CutSizes`); `SizeIsLost` makes
  the size of a key of 255 bytes 0.
- The length of a shared prefix is written as a byte and read as a signed char. A
  node comes back from disk if and only if the size of its first key is right and
  each other key is no longer than its size tells, shares at most 127 bytes with
  the key before it, and has a buffer whose size does not wrap round
  (`NodeBlock.WriteThenRead`). `SomeNodeIsLost` and `NodeCodec.LostSizes` give
  nodes that do not. Keys of at most 126 bytes are never lost
  (`NodeStore.TreeNodeIsLegible`).
- Freeing a block by its offset frees the first block of its chain only. The
  others stay handed out and belong to nobody, so that nothing is lost if and
  only if the data fits one block (`BlockStore.Store.Erase`); `AddThenErase` loses
  a block by one byte too many.
- `btreeTraverse` ends at a stored position that equals its end mark -1, so
  that a full traversal is exactly the part before such a position
  (`BTreeScan.Traverse`), and all of it if and only if there is none
  (`AllPassed`); `PassesNothing` gives a tree of which nothing is passed.
- Importing a dump that ends inside its last record stores bytes that are not in
  the file, if the record has its two sizes and is no larger than the read
  buffer (`DepotDump.CutExactly`, `StaleBytesAreStored`).
- Repairing a file with several records of one key keeps the first of them and
  reports failure; a last record whose header is cut off is dropped without
  notice, and with success (`DepotTools.Repair`).
- A table of comma-separated values whose last row is one empty plain cell without
  a line end comes back without that row, and exactly such a table
  (`CabinCsv.RowsOfTable`).
- Unescaping a field of comma-separated values writes outside of its buffer if
  and only if the field is a single quote (`CabinCsv.RoomExactly`).

## Model

| member | source | states |
|---|---|---|
| Depot.Database.Put | qdbm-1.8.78/qdbm-1.8.78/depot.c:346-494 | On every valid database, in all three modes: the call fails only when a record of the key is to be kept, otherwise exactly this key gets the new value, or when concatenating to a key that is there its old value with the new bytes behind it, and every other key keeps its own; tree, tiling, pool and record count stay consistent whether the record is written in place, grown over its neighbours, moved into a pooled region or moved to the end |
| Depot.Database.Out | qdbm-1.8.78/qdbm-1.8.78/depot.c:498-529 | Deleting succeeds exactly if the key is there, removes it from the map and nothing else, and keeps the invariant although the record stays in its search tree as a tombstone |
| Depot.Database.Get | qdbm-1.8.78/qdbm-1.8.78/depot.c:532-584 | A value comes back, from the start on and up to the requested length, byte by byte as stored, exactly if the key is in the map and the start is not past the end of the value |
| Depot.Database.Search | qdbm-1.8.78/qdbm-1.8.78/depot.c:1924-1978 | The walk through the records on disk ends and finds the record of a key exactly if the index has one; a search that accepts tombstones also yields the pointer word through which a record of the key has to be linked |
| Depot.LookingOn | qdbm-1.8.78/qdbm-1.8.78/depot.c:1936-1974 | Every turn of the walk, also the left turn at a tombstone that does not count, keeps the record that is looked for below the current one |
| Depot.Database.Append | qdbm-1.8.78/qdbm-1.8.78/depot.c:2071-2110 | A new record tiles the file from its old end, and with a positive alignment it ends at the next multiple of it |
| Depot.Database.Rewrite | qdbm-1.8.78/qdbm-1.8.78/depot.c:1993-2058 | A record put into a run of reusable records, split when enough is left over, leaves the tiling and the pool sound and changes nothing else that is in use |
| Depot.Database.Recover | qdbm-1.8.78/qdbm-1.8.78/depot.c:2120-2147 | Writing a value over the padding of its record keeps key, hash, children and size of the record |
| Depot.Database.Release | qdbm-1.8.78/qdbm-1.8.78/depot.c:2157-2185 | A record given up becomes a tombstone or a reusable gap, and a gap enters the pool, in a free slot or for the smallest entry, apart from all other entries |
| Depot.Database.Coalesce | qdbm-1.8.78/qdbm-1.8.78/depot.c:2190-2205 | Sorting the pool and joining neighbours leaves disjoint runs of reusable records that cover the same bytes |
| Depot.Database.BestFit | qdbm-1.8.78/qdbm-1.8.78/depot.c:432-449 | The smallest pooled region that is large enough, or none if none is |
| Depot.Database.MakeRoom | qdbm-1.8.78/qdbm-1.8.78/depot.c:377-399 | Absorbing reusable neighbours and extending the last record only ever grows the room, never over a record in use, and takes the absorbed regions out of the pool |
| Depot.Database.Relocate | qdbm-1.8.78/qdbm-1.8.78/depot.c:405-472 | A record that does not fit goes to a pooled region or to the end, its old place becomes reusable, and all other records in use are as before |
| Depot.Database.SetPoolSize | qdbm-1.8.78/qdbm-1.8.78/depot.c:723-748 | Forgetting the pool loses no record |
| Depot.Database.SetAlign | qdbm-1.8.78/qdbm-1.8.78/depot.c:707-719 | A different alignment keeps the map |
| Depot.Database.IterInit | qdbm-1.8.78/qdbm-1.8.78/depot.c:652-660 | The scan starts with all live keys ahead of it |
| Depot.Database.IterNext | qdbm-1.8.78/qdbm-1.8.78/depot.c:664-703 | Each call yields one of the keys ahead and takes just that one away, so every live key comes once, deleted keys never, and the end only when none is left |
| Depot.Database.constructor | qdbm-1.8.78/qdbm-1.8.78/depot.c:172-311 | An empty database with any number of buckets is valid |
| DepotSpace.EachByteHasOneOwner | qdbm-1.8.78/qdbm-1.8.78/depot.c:1782-1790 | In a tiled file every byte behind the buckets belongs to exactly one record |
| DepotSpace.OverwriteKeepsSpace | qdbm-1.8.78/qdbm-1.8.78/depot.c:2120-2147 | A record written over itself and absorbed neighbours, or past the old end of the file, keeps tiling and pool once the absorbed regions are out of the pool |
| DepotSpace.ReuseKeepsSpace | qdbm-1.8.78/qdbm-1.8.78/depot.c:1993-2058 | A record that fills a run of reusable records, however many headers the run has on disk, keeps tiling and pool |
| DepotSpace.SplitKeepsSpace | qdbm-1.8.78/qdbm-1.8.78/depot.c:2005-2056 | Splitting a run into a record and a reusable rest keeps tiling and pool, and the rest is itself a run that may be pooled |
| DepotSpace.AppendKeepsSpace | qdbm-1.8.78/qdbm-1.8.78/depot.c:2071-2110 | A record at the end of the file keeps tiling and pool |
| DepotSpace.FlaggedKeepsSpace | qdbm-1.8.78/qdbm-1.8.78/depot.c:2183-2184 | Writing only the flags word of a record keeps tiling and pool |
| DepotSpace.ReleasedIsRun | qdbm-1.8.78/qdbm-1.8.78/depot.c:2157-2185 | A record that absorbed neighbours and is then given up leaves a run of reusable records, although only its own flags word was written and no header on disk knows the size of the run |
| DepotSpace.RoomIsApart | qdbm-1.8.78/qdbm-1.8.78/depot.c:387-398 | A pooled region that does not start inside the room a record has taken does not touch it |
| DepotSpace.JoinKeepsPool | qdbm-1.8.78/qdbm-1.8.78/depot.c:2196-2204 | Joining two neighbouring pool entries keeps the pool sound |
| HashIndex.SearchStep | qdbm-1.8.78/qdbm-1.8.78/depot.c:1936-1974 | In an ordered tree a comparison decides which subtree can hold a key |
| HashIndex.WithKeepsOrder | qdbm-1.8.78/qdbm-1.8.78/depot.c:475-492 | Linking a record where the search ended adds its key and keeps the order of the tree |
| HashIndex.RewriteKeepsIndex | qdbm-1.8.78/qdbm-1.8.78/depot.c:2120-2147 | Rewriting a record with the same key and children keeps all search trees |
| HashIndex.RelinkKeepsIndex | qdbm-1.8.78/qdbm-1.8.78/depot.c:455-492 | Moving a record to a new offset, or adding one, and redirecting the one pointer the search followed keeps every search tree ordered, acyclic and in agreement with the records on disk |
| HashIndex.LinksFollowOrder | qdbm-1.8.78/qdbm-1.8.78/depot.c:1936-1974 | However many child words are followed from a record in use, they lead to a record in use, never to a reusable one and never back; to a larger one (by second hash, key size and key bytes) if the first word was the left one, to a smaller one if it was the right one |
| HashIndex.SmallerByBytes | qdbm-1.8.78/qdbm-1.8.78/depot.c:1936-1974 | The order of the trees is that of the second hash, and for equal hashes that of sizes and then bytes |
| HashIndex.BucketLeadsToRecord | qdbm-1.8.78/qdbm-1.8.78/depot.c:1929-1974 | Whatever a bucket and the child words behind it lead to is a record in use whose key belongs to this bucket |
| ByteOrder.MemCmp | qdbm-1.8.78/qdbm-1.8.78/depot.c:1902-1910 | memcmp of equal sizes is a total order: it is the order of the base-256 fractions |
| ByteOrder.KeyCmp | qdbm-1.8.78/qdbm-1.8.78/depot.c:1902-1910 | Comparing by size first and then by content is a total order with equality only for equal keys |
| ByteOrder.StrCmp | btree/btree_search.c:32-39 | strcmp on NUL-free strings is a total order with equality only for equal strings |
| ByteOrder.MemCmpByBytes | qdbm-1.8.78/qdbm-1.8.78/depot.c:1902-1910 | memcmp of equal sizes is less than 0 exactly if the first byte that differs is less |
| ByteOrder.KeyCmpByBytes | qdbm-1.8.78/qdbm-1.8.78/depot.c:1902-1910 | A key is less exactly if it is shorter, or as long and its first byte that differs is less |
| ByteOrder.StrCmpByBytes | btree/btree_search.c:32-39 | strcmp is less than 0 exactly if the first byte that differs is less, or the string ends where the other goes on |
| DepotTools.Run | qdbm-1.8.78/qdbm-1.8.78/depot.c:346-529 | Any sequence of puts, in any modes, and deletions leaves a valid file whose map is what the same updates make of a plain map, with the record count equal to its size |
| DepotTools.CopyAll | qdbm-1.8.78/qdbm-1.8.78/depot.c:779-938 | A scan over a well-formed file, without using its buckets, puts exactly the live records, in batches, into an empty database |
| DepotTools.Optimize | qdbm-1.8.78/qdbm-1.8.78/depot.c:779-938 | A database rebuilt with another number of buckets has the same map |
| DepotTools.Repair | qdbm-1.8.78/qdbm-1.8.78/depot.c:1061-1146 | For every file whose records follow each other, but for a last one that may be cut off anywhere, whatever has become of buckets, child words, hashes and the record count: the repaired database is valid and has the records without the deletion flag whose key and value are there, the first one of a key if there are several; repair reports success if and only if no key repeats and no such record lacks a part of its key or value, so that a header that is cut off goes unnoticed |
| DepotTools.FirstCounts | qdbm-1.8.78/qdbm-1.8.78/depot.c:1096-1127 | The repaired map has exactly the keys of the records that are read, each with the value of its first record |
| DepotTools.RecordsByOffset | qdbm-1.8.78/qdbm-1.8.78/depot.c:1096-1127 | The records that are read are those without the deletion flag, each once and in the order of their offsets |
| DepotTools.RecordsAreContents | qdbm-1.8.78/qdbm-1.8.78/depot.c:1061-1146 | The records of a well-formed file have distinct keys and stand for its map |
| DepotTools.RepairSound | qdbm-1.8.78/qdbm-1.8.78/depot.c:1061-1146 | Repairing the file of a valid database succeeds and keeps map and record count |
| DepotTools.Stash | qdbm-1.8.78/qdbm-1.8.78/depot.c:823-862 | Collecting live records up to the batch size and flushing them loses and repeats none |
| DepotDump.HexRoundTrip | qdbm-1.8.78/qdbm-1.8.78/depot.c:1164-1171 | A size written in hexadecimal is the size that strtol reads back, and no digit is a newline |
| DepotDump.HexByPlace | qdbm-1.8.78/qdbm-1.8.78/depot.c:1164-1171 | Every digit is that of its place, with capital letters above 9, and there is no 0 in front |
| DepotDump.StrtolReads | qdbm-1.8.78/qdbm-1.8.78/depot.c:1227-1242 | Reading a size passes blanks, takes a sign and a prefix, reads small letters like capital ones, and stops at the first byte that is no digit |
| DepotDump.DumpSpelled | qdbm-1.8.78/qdbm-1.8.78/depot.c:1150-1191 | A dump is its records one behind the other: the two sizes in hexadecimal, key and value, each with a newline behind it |
| DepotDump.DumpRoundTrip | qdbm-1.8.78/qdbm-1.8.78/depot.c:1150-1272 | Reading a dump gives the dumped records for keys and values of any bytes, newlines included, whether or not they fit the read buffer and whatever it held before |
| DepotDump.ReadEntry | qdbm-1.8.78/qdbm-1.8.78/depot.c:1220-1266 | One record of a dump, spelled out byte by byte, is read back exactly and the reader stands behind it |
| DepotDump.Export | qdbm-1.8.78/qdbm-1.8.78/depot.c:1150-1191 | A dump has every live record once |
| DepotDump.ReadHead | qdbm-1.8.78/qdbm-1.8.78/depot.c:1227-1249 | The loop over the buffer finds the two sizes and the end of the header, or says that there is none, and writes NULs over the two newlines only |
| DepotDump.ReadBody | qdbm-1.8.78/qdbm-1.8.78/depot.c:1250-1265 | Key and value come from the buffer if they fit it, stale bytes included, and from the file if they do not, in which case they have to be there |
| DepotDump.Import | qdbm-1.8.78/qdbm-1.8.78/depot.c:1195-1272 | Import into an empty database stores exactly the records that the file and the read buffer make up, up to the first that is broken or repeats a key, succeeds exactly if there is no such one, and refuses a database that has records |
| DepotDump.ReadUntilBroken | qdbm-1.8.78/qdbm-1.8.78/depot.c:1220-1266 | Whole records in front of something without two sizes are what is read of a file |
| DepotDump.CutExactly | qdbm-1.8.78/qdbm-1.8.78/depot.c:1220-1266 | A file of complete records is read as what it holds; any other file is accepted if and only if only its last record is incomplete, has its two sizes, and is no larger than the read buffer |
| DepotDump.StaleBytesAreStored | qdbm-1.8.78/qdbm-1.8.78/depot.c:1250-1251 | The six-byte file of two sizes 4 and the two bytes ab is accepted, with bytes that the buffer held before |
| DepotDump.ExportThenImport | qdbm-1.8.78/qdbm-1.8.78/depot.c:1150-1272 | Exporting a database and importing the dump into an empty one restores the map |
| BTree.BTree.Insert | btree/btree_insert.c:299-377 | For every order from 3 on: a new key is added, a known one is replaced or reported as duplicate as asked, position 0 is refused, and the whole tree invariant (key ranges, equal depth, fill, capacity, leaf links, size, no lost node, no position 0) holds again |
| BTree.BTree.Remove | btree/btree_delete.c:385-455 | Deleting removes exactly the key and returns its position, or changes nothing and returns 0; the whole invariant holds again after any chain of borrows and merges and a collapse or disappearance of the root |
| BTree.BTree.Get | btree/btree_search.c:60-85 | A search returns the position stored for a key, and 0 if and only if the key is not there |
| BTree.BTree.Search | btree/btree_search.c:23-58 | The descent by separators finds a key in a subtree exactly if a leaf below has it |
| BTree.BTree.InsertKey | btree/btree_insert.c:242-297 | Insertion into a subtree keeps it or halves it into two filled subtrees with the promoted separator strictly between the bounds, whatever the depth |
| BTree.BTree.SplitNode | btree/btree_insert.c:23-155 | Splitting a full node on disk leaves exactly the two halves of the node with the new key, and a known key splits nothing |
| BTree.BTree.Delete | btree/btree_delete.c:323-383 | Deletion from a subtree keeps key range, depth and leaf links, and the parent loses at most one key, in which case it says so |
| BTree.BTree.Rebalance | btree/btree_delete.c:355-378 | An underfilled child borrows from its right sibling if that has a key to spare, else from the left one if that has, and merges exactly if neither has; in each case the parent is a correct subtree again with the same entries |
| BTree.BTree.Settle | btree/btree_delete.c:429-450 | After the deletion the root stays, is replaced by its only child, or the tree is empty, and the size field is right |
| BTree.BTree.constructor | btree/btree_header.c:63-79 | An empty tree of any order from 3 on is valid |
| BTreeNode.Node.FindKey | btree/btree_search.c:32-35 | The loop stops at the first key that is not less |
| BTreeNode.Node.AddKey | btree/btree_insert.c:157-240 | The shifting loops insert key and position (or right-hand subtree) in order, and leave the node alone on a duplicate except for the asked replacement; the sizes behind the new key are what a signed char makes of them |
| BTreeNode.Node.Split | btree/btree_insert.c:45-155 | The in-place shifting and moving of a full node gives the lower and upper half of the node with the new key, and the key between them; sizes follow their keys as far as a signed char lets them |
| BTreeNode.HalvesMakeWhole | btree/btree_insert.c:45-155 | The two halves, with the key between them when they are internal nodes, are the node again; the lower one is as large as the upper one or has one key more, and a lower leaf is linked to the upper one |
| BTreeNode.AddedSizes | btree/btree_insert.c:157-206 | After an insertion by way of the char variables, into a node whose key sizes are right, they are right if and only if the new one fits an unsigned short and every size that was moved survives a signed char |
| BTreeNode.CutSizes | btree/btree_insert.c:45-101 | The same for the sizes of an overfull node before it is cut in two, where a new key at the end waits in a char as well |
| BTreeNode.Survives | btree/btree_insert.c:163-206 | A char keeps a size up to multiples of 256, between -128 and 127 read as an unsigned short, and so exactly the sizes up to 127 and from 65408 on |
| BTreeNode.SizesMove | btree/btree_insert.c:190-206 | When a size is inserted the ones in front of it stay, and each one behind it is what a char made of the one that was there before |
| BTreeNode.SizeIsLost | btree/btree_insert.c:190-206 | A leaf with a key of 255 bytes has size 0 for it after a smaller key went in |
| BTree.BTree.SizesAreRight | btree/btree_insert.c:23-240 | In every node of every tree, whatever was inserted and deleted, split, borrowed and merged, the sizes are right if no key of the node has more than 126 bytes |
| BTreeNode.Node.RemoveKey | btree/btree_delete.c:23-63 | Removing a key of a leaf closes the gap in all arrays and returns its position; an absent key changes nothing |
| BTreeNode.Node.RemoveAt | btree/btree_delete.c:65-89 | Removing a separator and the child before it closes both gaps |
| BTreeNode.Node.BorrowRight | btree/btree_delete.c:91-144 | The first key of the right sibling ends up at the end of the node, by way of the parent in an internal node, and all three nodes are exactly as intended |
| BTreeNode.Node.BorrowLeft | btree/btree_delete.c:146-229 | The same for the last key of the left sibling, with the separator set to the key that is then last there |
| BTreeNode.Node.Append | btree/btree_delete.c:231-321 | Merging appends all keys and children of the right node, with the separator between them in an internal node |
| BTreeGrow.LeafHalves | btree/btree_insert.c:23-155 | Both halves of a split leaf meet the minimum fill, are linked to each other, and the promoted key separates them |
| BTreeGrow.InnerHalves | btree/btree_insert.c:23-155 | Both halves of a split internal node meet the minimum fill and the promoted separator is in neither |
| BTreeGrow.KidSeparator | btree/btree_insert.c:286-292 | A separator promoted from a child never equals a separator of the parent |
| BTreeGrow.KidHalved | btree/btree_insert.c:286-292 | A parent that takes in a promoted separator is a correct subtree, or overfull by one |
| BTreeGrow.Sprouts | btree/btree_insert.c:345-372 | The first key makes a correct tree of one leaf |
| BTreeGrow.Rises | btree/btree_insert.c:345-372 | A new root over two halves makes a correct tree one level deeper |
| BTreeShrink.LeafShrinks | btree/btree_delete.c:23-63 | A leaf without one key is correct up to one missing key |
| BTreeShrink.Fuses | btree/btree_delete.c:231-321 | Two siblings merged into one node make a filled subtree with all entries of both, and the freed node is the only one that goes |
| BTreeShrink.Recuts | btree/btree_delete.c:91-229 | Two siblings cut at any other point that leaves both filled are correct siblings with the same entries, the separator that belongs there, and the nodes that such a cut writes |
| BTreeShrink.BorrowsRight | btree/btree_delete.c:91-144 | A parent whose child borrowed from the right is correct, with the same number of keys |
| BTreeShrink.BorrowsLeft | btree/btree_delete.c:146-229 | A parent whose child borrowed from the left is correct, with the same number of keys |
| BTreeShrink.MergesRight | btree/btree_delete.c:277-320 | A parent whose child took in its right sibling is correct with one key less |
| BTreeShrink.MergesLeft | btree/btree_delete.c:237-276 | A parent whose child was taken in by its left sibling is correct with one key less |
| BTreeShrink.Collapses | btree/btree_delete.c:436-450 | A root without keys leaves its only child as a correct tree that is one level lower |
| BTreeShrink.Vanishes | btree/btree_delete.c:431-435 | A leaf root without keys held the last entry |
| BTreeShape.EntriesRise | btree/btree_search.c:32-53 | The entries of a correct subtree ascend strictly and lie between the separators above it, which is what lets a search descend into one child only |
| BTreeShape.HalfFull | btree/btree_header.c:30-45 | The least fill is half: of the keys in a leaf, of the children in an internal node, and no more |
| BTreeShape.DictDel | btree/btree_delete.c:385-455 | Deleting from ascending entries is deleting from the map they stand for |
| BTreeShape.DictPut | btree/btree_insert.c:299-377 | Inserting a new key into the entries is inserting it into the map they stand for |
| BTreeScan.LeavesChain | btree/btree_traverse.c:74-127 | The next-leaf links visit all leaves of a subtree from the leftmost on, in order, and together they hold its entries |
| BTreeScan.Traversal.GetFirstOffset | btree/btree_traverse.c:74-93 | A traversal starts with the first entry, and says at once when there is none |
| BTreeScan.Traversal.GetNextOffset | btree/btree_traverse.c:95-127 | Every further call yields the next entry, across leaf boundaries, and -1 exactly after the last one |
| BTreeScan.Traverse | btree/btree_traverse.c:23-42 | A full traversal calls the function on the position of every entry in ascending order of the keys, up to a position that is the end mark |
| BTreeScan.AllPassed | btree/btree_traverse.c:23-42 | A full traversal passes the positions in order, ends at the first one that is the end mark, and so passes all of them if and only if none is |
| BTreeScan.PassesNothing | btree/btree_traverse.c:23-42 | A tree whose only key is at position -1 is traversed without passing it |
| BTreeScan.ContentsInOrder | btree/btree_traverse.c:74-127 | The traversed entries ascend strictly in the order of the bytes of their keys, agree with the search on every key, and are as many as the size field says |
| BTreeScan.Run | btree/btree_insert.c:299-377 | Any sequence of insertions and deletions, the latter on non-empty trees, leaves a valid tree that holds what the same updates make of a plain map |
| CabinMap.Map.constructor | qdbm-1.8.78/qdbm-1.8.78/cabin.c:3385-3400 | An empty map with any number of buckets is valid |
| CabinMap.Map.Put | qdbm-1.8.78/qdbm-1.8.78/cabin.c:1006-1076 | The call fails only on a known key that is not to be overwritten, otherwise a new entry comes behind all others, or the entry of the key keeps its place and has the new value, and no other entry changes; buckets, search trees and list agree also when the record moves in memory |
| CabinMap.Map.PutCat | qdbm-1.8.78/qdbm-1.8.78/cabin.c:1080-1152 | The value of a known key has the new bytes behind the old ones and its entry keeps its place, an unknown key comes behind all others |
| CabinMap.Map.Out | qdbm-1.8.78/qdbm-1.8.78/cabin.c:1156-1239 | The record leaves list, tree and count, no other entry changes, and a key that is not there changes nothing |
| CabinMap.Map.Get | qdbm-1.8.78/qdbm-1.8.78/cabin.c:1243-1271 | A value is found exactly for the keys of the map and is the stored one |
| CabinMap.Map.Move | qdbm-1.8.78/qdbm-1.8.78/cabin.c:1275-1321 | The entry goes to the head or the tail of the order and the order of the others stays |
| CabinMap.Map.Search | qdbm-1.8.78/qdbm-1.8.78/cabin.c:1015-1055 | The search finds the record of a key, or the place where it has to be linked |
| CabinMap.Map.AllKeys | qdbm-1.8.78/qdbm-1.8.78/cabin.c:1325-1340 | The iterator visits the keys in the order of their insertion, each once |
| CabinMap.Map.IterNext | qdbm-1.8.78/qdbm-1.8.78/cabin.c:1332-1340 | Each call yields the key at the iterator and goes to the next one, until none is left |
| CabinMap.KeysAreDistinct | qdbm-1.8.78/qdbm-1.8.78/cabin.c:1006-1340 | No key has two entries, and the count is the number of entries |
| CabinMap.Run | qdbm-1.8.78/qdbm-1.8.78/cabin.c:1006-1321 | Any sequence of put, put-and-concatenate, remove and move, wherever the allocator puts records, also where others were freed, keeps the map valid and does to it what the same updates do to an insertion-ordered association list |
| HashRemoval.GraftKeepsOrder | qdbm-1.8.78/qdbm-1.8.78/cabin.c:1188-1231 | Grafting a right subtree at the rightmost end of the left one keeps the order and all keys |
| HashRemoval.CutKeepsOrder | qdbm-1.8.78/qdbm-1.8.78/cabin.c:1188-1231 | A tree without a node, its subtrees grafted, is ordered and has all other keys |
| HashRemoval.CutLinked | qdbm-1.8.78/qdbm-1.8.78/cabin.c:1188-1231 | The two pointer writes that remove a record make memory spell out the tree without it |
| HashRemoval.RemovalKeepsIndex | qdbm-1.8.78/qdbm-1.8.78/cabin.c:1156-1239 | Removing a record keeps every search tree ordered and complete, in all cases of its two children |
| CabinList.ChainUnlink | qdbm-1.8.78/qdbm-1.8.78/cabin.c:1184-1187 | Bypassing a record leaves a doubly linked list of the others in order |
| CabinList.ChainPushBack | qdbm-1.8.78/qdbm-1.8.78/cabin.c:1068-1074 | A record put behind the last one extends the list |
| CabinList.ChainPushFront | qdbm-1.8.78/qdbm-1.8.78/cabin.c:1297-1305 | A record put before the first one extends the list |
| CabinList.ChainMoved | qdbm-1.8.78/qdbm-1.8.78/cabin.c:1038-1048 | A record that moved in memory keeps its place in the list |
| CabinSearch.StrStrBm | qdbm-1.8.78/qdbm-1.8.78/cabin.c:399-426 | For every haystack and needle, short and long ones included, the first occurrence, or none exactly if there is none |
| CabinSearch.ShiftTable | qdbm-1.8.78/qdbm-1.8.78/cabin.c:407-414 | The table holds for every byte the distance of its last occurrence from the end of the needle, or the length of the needle |
| CabinSearch.CompareBack | qdbm-1.8.78/qdbm-1.8.78/cabin.c:418-420 | The comparison from the end stops at the last difference, or finds an occurrence |
| CabinSearch.Skips | qdbm-1.8.78/qdbm-1.8.78/cabin.c:421-423 | After a mismatch no occurrence starts before the position the search goes on with |
| CabinSearch.ShiftIsSafe | qdbm-1.8.78/qdbm-1.8.78/cabin.c:417-424 | A positive bad-character shift skips no occurrence |
| CabinSearch.JumpIsSafe | qdbm-1.8.78/qdbm-1.8.78/cabin.c:417-424 | The jump by two when the shift is not positive skips no occurrence: the mismatched byte occurs further right in the needle |
| CabinSearch.Constant | qdbm-1.8.78/qdbm-1.8.78/cabin.c:417-424 | An occurrence one byte on would make the compared end of the needle one repeated byte |
| CabinSearch.StrStrKmp | qdbm-1.8.78/qdbm-1.8.78/cabin.c:366-395 | The two nested fallback loops end and compute the automaton of the signed-char table; long needles go to strstr |
| CabinSearch.BuiltIsBorders | qdbm-1.8.78/qdbm-1.8.78/cabin.c:372-382 | The table holds the longest proper border of every prefix as long as a signed char holds them |
| CabinSearch.StateIsOverlap | qdbm-1.8.78/qdbm-1.8.78/cabin.c:383-394 | The scan of such a text keeps the longest overlap of haystack and needle |
| CabinSearch.KmpFinds | qdbm-1.8.78/qdbm-1.8.78/cabin.c:366-395 | The result is the first occurrence, or none, in every text in which the scan falls back only from prefixes up to which all borders fit a signed char |
| CabinSearch.KmpMisses | qdbm-1.8.78/qdbm-1.8.78/cabin.c:366-395 | If one does not, there is a haystack with an occurrence that is not found |
| CabinSearch.KmpIsRightExactly | qdbm-1.8.78/qdbm-1.8.78/cabin.c:366-395 | The search is right on all haystacks if and only if all those borders fit; needles of up to 128 bytes always do |
| CabinSearch.KmpIsSound | qdbm-1.8.78/qdbm-1.8.78/cabin.c:366-395 | Whatever the search returns for any needle is an occurrence |
| CabinSearch.BordersCanMisfit | qdbm-1.8.78/qdbm-1.8.78/cabin.c:366-395 | Some needle short enough for the table has a border that does not fit |
| CabinSort.QuickSort | qdbm-1.8.78/qdbm-1.8.78/cabin.c:3461-3489 | For any total preorder: sorts and permutes its range and nothing else, and ends, although the two recursive ranges may share an element |
| CabinSort.Partition | qdbm-1.8.78/qdbm-1.8.78/cabin.c:3469-3486 | The two scans end with the range parted, by at most one element that belongs to both parts |
| CabinSort.PartsSorted | qdbm-1.8.78/qdbm-1.8.78/cabin.c:3487-3488 | Two parts sorted one after the other, even when they share the middle element, make the range sorted |
| CabinSort.MiddleGe | qdbm-1.8.78/qdbm-1.8.78/cabin.c:3487-3488 | The shared element, after the first part was sorted, is still no less than the pivot |
| CabinSort.InsertionSort | qdbm-1.8.78/qdbm-1.8.78/cabin.c:184-201 | Sorts and permutes its range and nothing else |
| CabinHeap.SiftDown | qdbm-1.8.78/qdbm-1.8.78/cabin.c:243-253 | Restores the heap whose root has the next slot as its only child |
| CabinHeap.HeapSort | qdbm-1.8.78/qdbm-1.8.78/cabin.c:232-273 | Sorts and permutes the array for any total preorder |
| CabinHeap.RootIsLargest | qdbm-1.8.78/qdbm-1.8.78/cabin.c:255-271 | The root of that heap is its largest element |
| CabinHeap.Heap.Insert | qdbm-1.8.78/qdbm-1.8.78/cabin.c:1542-1578 | The element is taken in exactly if there is room or it is no larger than the largest, and the heap keeps the smallest elements seen so far |
| CabinHeap.Heap.ToSorted | qdbm-1.8.78/qdbm-1.8.78/cabin.c:1590-1599 | The elements come out sorted, with those dropped they are all that were seen, and none of those dropped is smaller than one that was kept |
| CabinHeap.KeepSmallest | qdbm-1.8.78/qdbm-1.8.78/cabin.c:1496-1599 | Inserting any sequence gives the given number of smallest elements, sorted, or all of them if there are fewer |
| CabinHeap.TopIsLargest | qdbm-1.8.78/qdbm-1.8.78/cabin.c:1542-1578 | The top of the bounded heap is its largest element |
| CabinCsv.CsvRows | qdbm-1.8.78/qdbm-1.8.78/cabin.c:2623-2646 | The scanning loop computes the rows that the quoting rules define |
| CabinCsv.CsvCells | qdbm-1.8.78/qdbm-1.8.78/cabin.c:2650-2680 | The scanning loop computes the cells that the quoting rules define, unescaped; for rows of plain and quoted cells these are the cells (CellsOfRow) |
| CabinCsv.Escape | qdbm-1.8.78/qdbm-1.8.78/cabin.c:2684-2698 | The cell in quotes with its quotes doubled |
| CabinCsv.Unescape | qdbm-1.8.78/qdbm-1.8.78/cabin.c:2702-2723 | What the quoting rules say a field stands for: what was escaped, or a plain field as it is (PlainUnescaped) |
| CabinCsv.RoomExactly | qdbm-1.8.78/qdbm-1.8.78/cabin.c:2702-2723 | What unescaping writes fits the buffer it gets, unless the field is a single quote, and then it does not |
| CabinCsv.UnescapeUndoes | qdbm-1.8.78/qdbm-1.8.78/cabin.c:2684-2723 | Unescaping an escaped cell gives the cell back |
| CabinCsv.PlainUnescaped | qdbm-1.8.78/qdbm-1.8.78/cabin.c:2702-2723 | A field without quotes is not changed |
| CabinCsv.QuotesUnescaped | qdbm-1.8.78/qdbm-1.8.78/cabin.c:2714-2719 | Of any number of quotes inside a field that does not start with one, half are left and the rest of the field stays |
| CabinCsv.EscapedSpelled | qdbm-1.8.78/qdbm-1.8.78/cabin.c:2684-2698 | A cell without quotes is escaped by a quote on each side, and any other by doubling its quotes as well |
| CabinCsv.RowsOfTable | qdbm-1.8.78/qdbm-1.8.78/cabin.c:2623-2646 | Rows of a printed table, of plain and quoted cells, come apart where they were joined, whichever line end was used, also when quoted cells contain line ends, commas and quotes; exactly a last row of one empty plain cell without a line end is not there |
| CabinCsv.CellsOfRow | qdbm-1.8.78/qdbm-1.8.78/cabin.c:2650-2680 | Cells of a printed row, plain and quoted in any mix, come back as they were |
| CabinCsv.CsvRoundTrip | qdbm-1.8.78/qdbm-1.8.78/cabin.c:2623-2723 | A table of plain and quoted cells, printed and parsed, is the same table |
| BlockSpace.OneOwner | btree/db_blocks.c:561-738 | No byte of the file belongs to two blocks |
| BlockSpace.TakenOrLeft | btree/db_blocks.c:604-627 | Filling a chain from the free list loses no free block, and takes as many as fit and are asked for |
| BlockSpace.TakenAt | btree/db_blocks.c:604-627 | The blocks taken are the first ones of their size, in the order of the list |
| BlockSpace.HandOut | btree/db_blocks.c:604-627 | Blocks taken from the free list were not handed out and are no longer free |
| BlockSpace.GiveBack | btree/db_blocks.c:669-738 | Freed blocks are on the free list, each once, and no longer handed out |
| BlockSpace.PartitionGrows | btree/db_blocks.c:638-646 | Padding the file by one block adds one block to the partition |
| BlockFile.BlockFile.Reserve | btree/db_blocks.c:561-667 | Distinct, ascending blocks of the size of the type that nobody else holds, and the file grows by the shortfall only |
| BlockFile.BlockFile.Free | btree/db_blocks.c:669-738 | The blocks of a chain go to the free list and the partition stays |
| BlockFile.BlockFile.TakeFree | btree/db_blocks.c:604-627 | The loop takes the first fitting blocks in the order of the list |
| BlockFile.Ascending | btree/db_blocks.c:648-664 | Sorted distinct offsets ascend strictly |
| BlockChain.NeededBlockCount | btree/db_blocks.c:773-792 | The least number of blocks that hold the data |
| BlockChain.LeastIsUnique | btree/db_blocks.c:773-792 | No other number of blocks is least |
| BlockChain.WriteBlock | btree/db_blocks.c:377-539 | A block written with data of any size greater than 0, larger or smaller than before, keeps its first offset, has the least chain, is on disk byte by byte, and every block held by others is untouched |
| BlockChain.WriteChain | btree/db_blocks.c:466-520 | Header, padding, links and data of all blocks of the chain are on disk, and nothing else changed |
| BlockChain.ReadBlock | btree/db_blocks.c:249-375 | A block on disk comes back with its data, header fields and chain |
| BlockChain.ReadHeader | btree/db_blocks.c:147-212 | The header fields on disk are the ones written |
| BlockChain.HeaderIs | btree/db_blocks.c:214-247 | Type, size, flags, next block and list link are each read from where they were written |
| BlockChain.HeaderStored | btree/db_blocks.c:214-247 | The header on disk, byte by byte: type, size, flags, next block and list link, the most significant byte first |
| BlockChain.LinkStored | btree/db_blocks.c:466-520 | Every further block starts with the four bytes of the offset of the next one, or of 0 |
| BlockChain.DataStored | btree/db_blocks.c:466-520 | Behind that each block has the part of the data that is due, byte by byte, and zeros behind it |
| BlockStore.Store.Add | btree/db_blocks.c:377-539 | A new block gets an offset that no other block has, and all others keep their contents |
| BlockStore.Store.Rewrite | btree/db_blocks.c:377-539 | Rewriting one block of many with data of any other size changes this block only |
| BlockStore.Store.Erase | btree/db_blocks.c:761-771 | Freeing a block by its offset frees its first block; the other blocks of its chain are lost, exactly those, and so nothing is lost if and only if its data fits one block |
| BlockStore.AddThenErase | btree/db_blocks.c:761-771 | A block with one byte more than fits, written and erased, leaves the old contents and blocks that nobody owns |
| BlockStore.Store.Load | btree/db_blocks.c:249-375 | Reading any block of a store gives what it was last given |
| BlockStore.StillAlive | btree/db_blocks.c:377-539 | A block stays whole while others are written |
| BlockStore.StillAccounted | btree/db_blocks.c:377-539 | Every block handed out is in exactly one chain or lost, also after a write |
| BlockHistory.Run | btree/db_blocks.c:377-771 | Any history of writes, rewrites and erasures from an empty file leaves every block that is left with the contents it was last given, each at its own offset, and no others |
| BigEndian.GetPut | btree/db_utils.c:23-104 | A number that fits its field is read back as it was written |
| BigEndian.PutGet | btree/db_utils.c:23-104 | Every field of bytes is the field of the number it is read as |
| BigEndian.PutByte | btree/db_utils.c:70-104 | A field has the most significant byte first: each byte is the digit of its place to the base 256 |
| BigEndian.TwoBytes | btree/db_utils.c:78-90 | The two bytes of a number, spelled out |
| BigEndian.FourBytes | btree/db_utils.c:92-104 | The four bytes of a number, spelled out |
| NodeCodec.CompressString | btree/db_utils.c:122-166 | The key, as far as its size goes, without the longest prefix, up to 255 bytes, that it shares with its base, behind the length of that prefix; nothing for a key without a size, and no result if the size of the buffer wraps round |
| NodeCodec.StoredBytes | btree/btree_node.c:44-71 | The coded keys byte by byte: the first one as it is, each other one as the number of bytes it shares with the key before it and the bytes behind them, filled up with NULs |
| NodeCodec.LegibleExactly | btree/db_utils.c:122-193 | A key coded against its base and decoded against any buffer that holds the base comes back if and only if its size covers it, the two share at most 127 bytes and the size of its buffer fits; it has its size then |
| NodeCodec.RestoredExactly | btree/btree_node.c:44-101 | Decoding against decoded predecessors restores all keys of a node if and only if the size of the first one is right and each other one is legible behind the key before it; the sizes are then restored as well |
| NodeCodec.LegibleWithRightSizes | btree/btree_node.c:44-101 | With right sizes that is the case exactly if no key shares more than 127 bytes with the key before it, and none of 65534 bytes shares nothing |
| NodeCodec.ShortKeysLegible | btree/btree_node.c:44-101 | A node whose keys have at most 126 bytes loses nothing |
| NodeCodec.LostSizes | btree/btree_node.c:44-101 | A node with one key of 255 bytes, into which a smaller key was inserted, is not restored |
| NodeBlock.CompressNode | btree/btree_node.c:44-71 | The descending loop codes each key against its original predecessor |
| NodeBlock.UncompressNode | btree/btree_node.c:73-101 | The ascending loop decodes each key against the decoded one before it |
| NodeBlock.WriteNodeBlock | btree/btree_node.c:158-211 | Byte 0 of the buffer is the number of keys, then come four bytes for each child, two for the size of each coded key, and the coded keys one behind the other, and nothing else; there is no buffer if and only if a coded key would run over its own or a size reach behind its string |
| NodeBlock.ChildrenFollow | btree/btree_node.c:181-184 | Child i is in the four bytes from 1 + 4 * i on |
| NodeBlock.SizesFollow | btree/btree_node.c:186-187 | The size of coded key i is in the two bytes from 1 + 4 * order + 2 * i on |
| NodeBlock.KeysAreLast | btree/btree_node.c:189-197 | The coded keys follow from 6 * order - 1 on, each behind the ones before it |
| NodeBlock.ReadNodeBlock | btree/btree_node.c:103-156 | From such a buffer the count and all children come back, and the keys and sizes as far as their coding kept them |
| NodeBlock.WriteThenRead | btree/btree_node.c:103-211 | A node with any key sizes comes back unchanged, sizes included, if and only if all of its keys are legible |
| NodeBlock.SomeNodeIsLost | btree/btree_node.c:103-211 | Two ordered keys, the first of 128 bytes and the second one byte longer, do not come back although their sizes are right |
| NodeStore.SaveNode | btree/btree_node.c:318-327 | A node saved to a file of blocks leaves all other blocks alone |
| NodeStore.LoadNode | btree/btree_node.c:302-316 | A node loaded after any changes to other blocks is the node that was saved, under the same condition on its keys and sizes and no other |
| NodeStore.TreeNodeIsLegible | btree/btree_node.c:44-211 | Every node of every tree, whatever was inserted and deleted, meets that condition if none of its keys has more than 126 bytes |

## Left out

- Files, sockets, locks, memory maps and their errors: Depot's file is a map from offsets to records, the block file is a sequence of bytes, and both never fail. The fatal paths, read-only and test modes of both engines are not part of this model.
- Integer widths in Depot and Cabin: sizes, offsets and counters are unbounded, so overflow of 32-bit sizes is not modelled.
- Hash functions and the table of primes: hashes are arbitrary functions and any positive number of buckets is allowed.
- Depot.Database.PadSize: models a positive alignment and a negative one with the floating-point factor written as an exact division; results that differ by rounding, and a shift by more bits than a word has, are not modelled. No result depends on the amount of padding.
- Depot.Database.Search: the entity buffer that saves a second read of the key is not modelled, since it never changes what is read.
- Depot.Database.IterNext: says what one call does between updates; a database that is changed between two calls may have absorbed the record the iterator stands at.
- Depot.Database.Coalesce: libc's qsort is replaced by a selection of swaps that sorts by offset; any sorting function has the same contract.
- Depot.Database.constructor: makes a new file; opening one that exists is not part of this model.
- DepotTools.Repair: covers files whose records follow each other up to the end or up to a last one that is cut off; sizes that are negative are not modelled.
- DepotDump.Import: sizes that overflow an int are not modelled.
- Names, links, inodes, time stamps and flags of a Depot file, and the functions that only report a field.
- BTree.BTree.Remove: is for non-empty trees, because the program reads the root before it checks whether there is one; it fails on an empty tree.
- BTree.BTree.EraseNode: a node is one object at one offset here; what happens to the blocks of its chain is in BlockStore, and the write of a node after it was erased is not modelled.
- BTreeScan.Traversal.GetNextOffset: is not for a traversal that has ended, where the program calls itself without end.
- BTreeScan.Traversal.GetFirstOffset: is not for a tree that became empty after it had a leaf, whose leftmost-leaf field the program leaves as it was.
- Strings that are released while still in use (btree/btree_delete.c:111, 121, 285, 296): keys are values here.
- Reference counts, dirty flags and the lifetime of cached blocks; a block is always written when it is asked to be.
- BlockChain.WriteBlock: is for data of at least one byte; without data the program writes to an empty chain.
- BlockChain.ReadBlock: is for blocks that were written by this program, so that a wrong type, a broken header and a chain that links to itself do not occur.
- BlockFile.BlockFile.Reserve: the free list has no limit, the number of blocks is not cut to 16 bits, and the list is kept in memory between calls.
- NodeBlock.WriteNodeBlock: is for neighbouring keys that differ, child offsets of four bytes and orders up to 128; the slots behind the last key are empty. A node whose coding overruns a buffer, or reads behind a string, has no bytes here.
- NodeBlock.ReadNodeBlock: has no node if a key is missing or has no end, while the program returns one with a null pointer or an unterminated string in it.
- BTree.BTree.Insert: works on nodes that stay in memory, like all operations of the tree; what becomes of a node that is written and read again is `NodeStore.LoadNode`.
- NodeCodec.UncompressString: a copy that runs over its buffer has no result, whatever it would overwrite; a char is taken to be signed.
- CabinMap.Map.Put: where a new or moved record lies in memory is a parameter, and so is whether a growing record moves.
- CabinMap.Map.IterNext: says what one call does between updates.
- CabinSearch.StrStrBm: for needles of fewer than 3 or more than 255 bytes the program calls strstr, which is taken at its specification.
- CabinHeap.Heap.ToSorted: libc's qsort is taken to be the verified quicksort.
- CabinCsv.Unescape: a field that is a single quote is read as an empty one; the byte that the program writes outside of its buffer in this case is not modelled. NUL bytes cannot be part of a cell.
- Cabin's Shell sort, its dump format, date, MIME, XML, URL and compression helpers, as well as Curia, Hovel, Villa and Vista, the hash table of the GNUpdate database and its package database: layers or simpler members over the same ideas.
