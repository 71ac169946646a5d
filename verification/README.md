# qdb storage core in Dafny

A model of the storage layer of qdb, a small relational database written in Rust.
It covers the pieces every other part of the engine is built on:

- **Pages and blocks** (`page.dfy`, `block.dfy`, `bytes.dfy`): fixed-size zeroed
  4096-byte buffers with their bookkeeping fields.
- **The disk manager** (`disk_manager.dfy`): a page-id counter and the byte offset
  `page * PAGE_SIZE` at which a page lives in the single database file.
- **The buffer manager** (`buffer_manager.dfy`): a bounded cache of blocks keyed by
  block id, with a FIFO queue of unfixed ids used to pick eviction victims.
- **The lock manager** (`lock_manager.dfy`): shared and exclusive locks per object id.
  Each operation is a function on the lock table. The `LockManager` class applies it
  in place.
- **The catalog** (`catalog.dfy`): table metadata in a vector, with a name index.
- **The hash table** (`extensible_hash.dfy`): a linear-hashing table. With `numBits`
  bits and `len` buckets, key `k` lives in bucket `k mod 2^numBits`. That bucket is
  folded down by `2^(numBits-1)` when it does not exist yet. A split appends one
  bucket and walks the single bucket whose keys may now belong to the new one.
  - The class `HashTable` keeps the source's three fields and updates them in place.
  - Each method is proved equal to a function on `Table` values (`AfterPut`,
    `AfterRemove`, `AfterSplit`, `Lookup`).
  - The lemmas state the invariant (every entry sits in its key's bucket), that no
    entry is lost or duplicated, and what lookups return after each operation.

The model follows the code as written, including its quirks:

- `remove` only ever removes an entry at index 0 of the key's bucket. Its loop
  breaks after the first iteration, and the item count drops even when nothing was
  removed.
- Every entry a split moves goes through the counting part of `put`. So `numItems`
  grows by the number of entries moved, and afterwards it can exceed the number of
  stored entries.
- `create_table` hands out `tables.len() - 1` as the new id and never fills the
  name index. A freshly created table is therefore not found by `get_table`.
- `allocate_empty_block` never stores the block it returns, so allocations alone
  never use up capacity. It still fails whenever no block is free, for example at
  capacity 0 or once `get_block` has filled the cache. The crate's own unit tests at `src/buffer_manager.rs:78-97` expect the opposite.
  `AllocateElevenOnTen` proves what the code does.

Where a Rust `unwrap` or an unsigned subtraction would panic, the model turns the
condition into a precondition.

## Model

| member | source | states |
|---|---|---|
| Bytes.Zeroes | src/page.rs:20 | The buffer `[0; n]` has length `n` and every byte is zero. |
| Pages.NewPage | src/page.rs:30-38 | A new page has id 0, a `PAGE_SIZE` buffer of zeroes, is clean, has no used space and one pin. |
| Pages.DefaultPage | src/page.rs:16-26 | The `Default` page is the same value as `Page::new()`. |
| Blocks.NewBlock | src/block.rs:13-19 | A new block is a `BLOCK_SIZE` buffer of zeroes with no used space and no pins. |
| DiskManagement.PageOffset | src/disk_manager.rs:27-40 | The offset for `page` is a multiple of `PAGE_SIZE` whose quotient is `page`. |
| DiskManagement.PageRangesDisjoint | src/disk_manager.rs:10-40 | Distinct pages occupy disjoint byte ranges of the file. |
| DiskManagement.DiskManager.constructor | src/disk_manager.rs:19-25 | A new disk manager starts its counter at 0, has issued nothing and records the file name. |
| DiskManagement.DiskManager.DeallocatePage | src/disk_manager.rs:48 | An associated function with an empty body: it takes a page id and does nothing. |
| DiskManagement.DiskManager.AllocatePage | src/disk_manager.rs:42-46 | Returns the counter and increments it. The returned id was never issued before. |
| LockManagement.LockSharedOn | src/lock_manager.rs:25-38 | Refused exactly when the id is held exclusively, and then nothing changes. Otherwise the id has one more shared holder. |
| LockManagement.LockExclusiveOn | src/lock_manager.rs:42-48 | Granted exactly when the id holds no lock, and then the id is held exclusively. Otherwise nothing changes. |
| LockManagement.UnlockOn | src/lock_manager.rs:52-61 | A shared lock with more than one holder loses one holder. Any other entry for the id is removed. |
| LockManagement.OperationsKeepInvariant | src/lock_manager.rs:25-61 | No operation leaves a shared lock with zero holders, and none changes the entry of another id. |
| LockManagement.UnlockUndoesLockShared | src/lock_manager.rs:25-61 | A granted shared lock followed by an unlock gives back the original table. |
| LockManagement.UnlockUndoesLockExclusive | src/lock_manager.rs:42-61 | A granted exclusive lock followed by an unlock gives back the original table. |
| LockManagement.SharedTimesCounts | src/lock_manager.rs:25-38 | `n > 0` shared locks on a free id leave exactly `Shared(n)` on it. |
| LockManagement.UnlockTimesCounts | src/lock_manager.rs:52-61 | `j` unlocks of `Shared(n)` leave `Shared(n - j)`; after `n` unlocks the entry is gone. |
| LockManagement.SharedHoldersBlockExclusive | src/lock_manager.rs:68-88 | On a free id, every shared lock is granted. After `n` of them, exclusive locks fail until `n` unlocks have been made, and then they succeed. |
| LockManagement.LockManager.constructor | src/lock_manager.rs:17-21 | A new lock manager holds no locks. |
| LockManagement.LockManager.LockShared | src/lock_manager.rs:25-38 | The outcome and the new table are those of `LockSharedOn`. The invariant is kept. |
| LockManagement.LockManager.LockExclusive | src/lock_manager.rs:42-48 | The outcome and the new table are those of `LockExclusiveOn`. The invariant is kept. |
| LockManagement.LockManager.Unlock | src/lock_manager.rs:52-61 | The new table is that of `UnlockOn`. The invariant is kept. |
| BufferManagement.BufferManager.constructor | src/buffer_manager.rs:29-35 | A new cache has the given capacity, no blocks and an empty unfixed queue. |
| BufferManagement.BufferManager.BlocksFree | src/buffer_manager.rs:65-67 | Free blocks plus resident blocks equal the capacity. |
| BufferManagement.BufferManager.MemoryFree | src/buffer_manager.rs:69-71 | Free memory is a whole number of blocks, namely `BlocksFree`. Free plus resident bytes equal the capacity in bytes. |
| BufferManagement.BufferManager.GetBlock | src/buffer_manager.rs:37-53 | A hit returns the resident block and changes nothing. A miss with free room inserts a zeroed block. A miss on a full cache first evicts the front of `unfixed`. The block is resident afterwards and capacity is never exceeded. |
| BufferManagement.BufferManager.AllocateEmptyBlock | src/buffer_manager.rs:55-61 | Fails exactly when no block is free. A success returns a zeroed block. |
| BufferManagement.AllocateElevenOnTen | src/buffer_manager.rs:78-97 | On a cache of ten, eleven allocations all succeed and ten blocks stay free. |
| Catalogs.Catalog.CreateTable | src/catalog.rs:14-26 | A known name is rejected and nothing changes. Otherwise one record is appended, with id `len - 1` taken before the push, and that id is returned. The name index never changes. |
| Catalogs.Catalog.GetTable | src/catalog.rs:28-33 | `None` exactly when the name is not indexed. Otherwise it returns the record at the indexed position. |
| Catalogs.CreatedTableIsNotFound | src/catalog.rs:14-33 | A table that `create_table` accepted is still not found by `get_table`. |
| ExtensibleHash.Bucket | src/extensible_hash.rs:80-87 | Within the bit range, every key maps to an existing bucket. |
| ExtensibleHash.BucketAfterSplit | src/extensible_hash.rs:58-87 | A split changes a key's bucket only when the key was in the split bucket. Such a key either stays there or moves to the new last bucket. |
| ExtensibleHash.ShouldSplit | src/extensible_hash.rs:76-78 | The fill-degree test on integers: split when the item count exceeds 8 per bucket (`ShouldSplitIsFillDegree` relates it to the ratio test). |
| ExtensibleHash.ShouldSplitIsFillDegree | src/extensible_hash.rs:76-78 | The integer test `numItems > 8 * len` agrees with the ratio test `numItems / (len * 10) > 0.8`. |
| ExtensibleHash.FirstValue | src/extensible_hash.rs:35-43 | The scan finds nothing exactly when no entry has the key. A value it finds is stored under the key. |
| ExtensibleHash.FirstValueIsFirst | src/extensible_hash.rs:35-43 | The value found is the one at the first index holding the key. |
| ExtensibleHash.EmptyTable | src/extensible_hash.rs:17-23 | A new table has one empty bucket, one bit and no items. It satisfies the invariant. |
| ExtensibleHash.SplitBits | src/extensible_hash.rs:59-61 | The bit count grows by one exactly when all `2^numBits` buckets exist. The new bucket count fits the new bit count. |
| ExtensibleHash.SplitIndex | src/extensible_hash.rs:63 | The split bucket exists and lies `2^(nb-1)` below the new bucket. |
| ExtensibleHash.SelectMembers | src/extensible_hash.rs:65-73 | An entry the split keeps, or moves, comes from the split bucket and has the matching bucket. |
| ExtensibleHash.SelectPartition | src/extensible_hash.rs:65-73 | The kept entries and the moved entries together are exactly the split bucket's entries. |
| ExtensibleHash.SplitLoopStart | src/extensible_hash.rs:63-65 | Before the loop, nothing has been examined and the new bucket is empty. |
| ExtensibleHash.SplitLoopKeep | src/extensible_hash.rs:70-72 | An entry that still belongs to the split bucket stays, and the loop moves past it. |
| ExtensibleHash.SplitLoopMove | src/extensible_hash.rs:67-69 | An entry that no longer belongs is removed from the split bucket. Re-inserting it appends it to the new last bucket. |
| ExtensibleHash.SplitLoopDone | src/extensible_hash.rs:66-73 | When the loop exits, the buckets are those of `AfterSplit`. |
| ExtensibleHash.SplitKeepsInv | src/extensible_hash.rs:58-74 | A split keeps the bit range and leaves every entry in its key's bucket. |
| ExtensibleHash.SplitKeepsEntries | src/extensible_hash.rs:58-74 | A split neither loses nor duplicates an entry. |
| ExtensibleHash.SplitKeepsLookup | src/extensible_hash.rs:58-74 | A split changes no lookup result. |
| ExtensibleHash.PushKeepsInv | src/extensible_hash.rs:26-28 | Appending to the key's bucket keeps the invariant. |
| ExtensibleHash.PushEntries | src/extensible_hash.rs:26-28 | Appending adds exactly the one new entry. |
| ExtensibleHash.PushLookup | src/extensible_hash.rs:26-43 | After appending, the key yields the new value only if it had none before. Every other key is unchanged. |
| ExtensibleHash.PutKeepsInv | src/extensible_hash.rs:25-33 | `put` keeps the invariant and adds exactly one entry. |
| ExtensibleHash.PutLookup | src/extensible_hash.rs:25-43 | After `put(k, v)`, `get(k)` is `v` when `k` was absent and unchanged otherwise, since the older entry shadows the new one. Other keys are unaffected. |
| ExtensibleHash.PutCounts | src/extensible_hash.rs:25-33 | `put` stores one more entry. The item count never loses ground on the entry count, and without a split it rises by exactly one. |
| ExtensibleHash.LookupNoneIffAbsent | src/extensible_hash.rs:35-43 | `get` is `None` exactly when no bucket holds the key. |
| ExtensibleHash.RemoveKeepsInv | src/extensible_hash.rs:46-55 | `remove` keeps the invariant. |
| ExtensibleHash.RemoveEntries | src/extensible_hash.rs:46-55 | `remove` deletes the head of the key's bucket when it holds the key, and deletes nothing otherwise. |
| ExtensibleHash.RemoveLookup | src/extensible_hash.rs:46-55 | Other keys keep their lookups. The removed key loses only the entry at the head of its bucket. |
| ExtensibleHash.PutGetTest | src/extensible_hash.rs:95-106 | The `put_get` test: four inserts, then the five expected lookups. |
| ExtensibleHash.FourPuts | src/extensible_hash.rs:95-100 | The four test inserts all land, in order, in the single first bucket. |
| ExtensibleHash.SplitOfFour | src/extensible_hash.rs:143-154 | Splitting that bucket separates the even keys from the odd ones, and the item count becomes six. |
| ExtensibleHash.SplitTest | src/extensible_hash.rs:143-154 | The `split` test: after one split there are two buckets of two entries each. |
| ExtensibleHash.RemoveTest | src/extensible_hash.rs:131-141 | The `remove` test: removing 42 hides it, and 43 is still found. |
| ExtensibleHash.HashTable.constructor | src/extensible_hash.rs:17-23 | The new object's state is `EmptyTable`. |
| ExtensibleHash.HashTable.Push | src/extensible_hash.rs:26-28 | The new state is the old one with the entry appended to its key's bucket and one more item. |
| ExtensibleHash.HashTable.Put | src/extensible_hash.rs:25-33 | The new state is `AfterPut` of the old one, and the invariant is kept. |
| ExtensibleHash.HashTable.Get | src/extensible_hash.rs:35-43 | The loop returns `Lookup` of the state: the first value stored under the key in its bucket. |
| ExtensibleHash.HashTable.Remove | src/extensible_hash.rs:46-55 | The new state is `AfterRemove` of the old one, and the invariant is kept. |
| ExtensibleHash.HashTable.Split | src/extensible_hash.rs:58-74 | The new state is `AfterSplit` of the old one, and the invariant is kept. |
| ExtensibleHash.HashTable.SplitBucket | src/extensible_hash.rs:65-73 | The in-place loop of `split` ends in the state `AfterSplit` describes. |

## Left out

- File I/O: `DiskManager::new` does not create a file, and `read_page` and `write_page` are represented only by the offset they compute. The disk manager's file handle is not modelled.
- `deallocate_page`, `unpin_block`, `add_tuple`, `write_to_disk`, `create_index`, `get_index` and `get_table_indices` have empty bodies in the source. Only `deallocate_page` is written out, as a method that does nothing.
- The eviction in `get_block` calls `write_to_disk`, which does nothing. Loading a block from disk is a TODO in the source, so a miss yields a zeroed block.
- `Display` for `BufferManager`, and the `Arc` sharing of cached blocks: blocks are values here.
- ExtensibleHash.ShouldSplit: the source compares `f32` values. The model uses the exact integer test, which the lemma equates with the exact ratio; `f32` rounding near the threshold is not modelled.
- ExtensibleHash.HashTable.SplitBucket: the loop re-inserts a moved entry with `Push`, the append-and-count half of `put`, without `put`'s own `should_split` check. In the source that nested `put` can split again in the middle of the outer loop. The keys 2, 1, 3, 5, 7, 9, 11, 13 and 15, put into a new table, make a nested split empty the bucket the outer loop is walking, and the outer loop then indexes past its end. That recursion, and that panic, are not modelled.
- ExtensibleHash.HashTable.Put and ExtensibleHash.AfterPut: `put` splits at most once here. It follows the source only while no relocation inside its split pushes `numItems` past 8 per bucket. In the source each relocation is a full `put`, which can split again. With the keys 0, 2, 4, ..., 32 put in order into a new table, the 8th relocation in the 17th put raises the count to 25, above 8 times 3 buckets, and the source splits a second time and ends with 4 buckets. The model ends that `put` with 3 buckets and a pending split, which it performs at the next `put` instead.
- ExtensibleHash.HashTable.Split: inherits the limit of `SplitBucket` above; its postcondition describes the split without the nested `put` calls.
- Machine integers: `usize` and `u64` are unbounded here. Overflow of `next_page_id`, `num_items`, `page * PAGE_SIZE` and the conversion of the offset to `u64` are not modelled.
- Panics become preconditions: `remove` on a table whose `num_items` is 0, `create_table` on an empty catalog, a `get_block` miss on a full cache whose `unfixed` queue is empty or names a block that is not resident, and `get_table` on a name whose indexed position is outside the table vector (`Catalogs.Catalog.GetTable` requires the position to be in range).
- The `a_lot_of_items` hash-table test is not restated: a thousand concrete inserts and a hundred removals are too many to replay step by step in the verifier.
- The lock manager's `basics` test is covered by `SharedHoldersBlockExclusive` for any `n`, not replayed step by step.
- The rest of the engine (external sort, joins, SQL, relations, table scans, the replacer, the B-tree stub and recovery) is not part of this model.
