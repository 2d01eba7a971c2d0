# nimbus client core, modelled in Dafny

This project models the local core of the nimbus file-system client. It has three parts.

- **The metadata store** (`metadata_file.py`) is a file-system namespace kept in a flat key-to-bytes table.
  - An item record under `Key(KT_ITEM, id)` holds a padded item dump.
  - An address record under `Key(KT_ADDR, parent, hash(name))` holds a list of `ChildAddrList` blocks. There is one block per item filed under that name hash, and each block lists that item's own children.
  - On top of this layout sit item id allocation with wrap-around and reservation, `append`, `update` (rename and move), `remove`, `find` (the path walk) and `listdir`.
- **Data blocks** (`data_block.py`) cover the reference-counted lock table `DBLocksManager` and the bookkeeping of a `DataBlock`: lock registration and release, the byte seek, and the re-chunking of reads through a carry-over buffer.
- **The block-splitting file object** (`smart_file_object.py`) cuts what is written into blocks of at most `MAX_DATA_BLOCK_SIZE` bytes and hands full blocks to a transactions manager. It reads a file back block by block.

Modules, one concern each:

- `Wrappers`: `Option`, `Result` and the `Error` values that stand for the Python exceptions.
- `Bytes`: bytes and fixed-width integers, little-endian packing (the `struct` codes `B`, `I`, `Q`, `i`) and Python slicing.
- `Records`: the `Key`, `ChildAddrList` and `AddressItems` codecs and the item-record padding. Each has its cursor loops as methods, proved against specification functions, with round-trip lemmas.
- `Store`: the table operations of `MetadataFile` as functions of the table.
- `StoreProperties`: what those operations do to the table.
- `ChildrenInvariant`: the invariant behind `listdir`: every id that an address record lists has an item record that loads. `append` and `update` keep it, and `remove` keeps it for an item listed once. An `append` that raises after `__append_addr_child` breaks it, because nothing is rolled back. With the invariant, `listdir` of a path that resolves succeeds.
- `MetadataFiles`: the class `MetadataFile`. Its fields are the table (`db`) and the id counter (`lastItemId`). Its methods change both in place, and each is proved to do exactly what the matching `Store` function says.
- `Paths`: `path.split('/')` as `find` uses it.
- `DataBlocks`: the lock table, as functions and as the class `DBLocksManager`, and the class `DataBlock`.
- `SmartFiles`: `SmartFileObject` and the transactions manager it calls. The classes are proved against the functions `Written`, `Send`, `Closed` and `ReadSpec`; the properties are proved about those functions.

The hash of a name (`zlib.adler32`) and the item metadata codec (`item_md.dump()`, `DirectoryMD`, `FileMD`) are parameters, carried in an `Env` value. Two names with the same hash are therefore in scope, and several properties are about exactly that case.

## Model

| member | source | states |
|---|---|---|
| Bytes.LittleEndian | nimbus_client/core/metadata_file.py:56-57 | the packed field has exactly n bytes, the first holding the low byte of x |
| Bytes.LittleEndianRoundTrip | nimbus_client/core/metadata_file.py:38-41 | unpacking a packed field gives back the value |
| Bytes.I32BitsRoundTrip | nimbus_client/core/metadata_file.py:31 | the signed 32-bit `i` field round-trips through its bit pattern |
| Bytes.Slice | nimbus_client/core/metadata_file.py:78 | `s[lo:hi]` with clamped bounds: the length is what Python gives, and the elements are those of s from lo on |
| Bytes.PyBound | nimbus_client/core/smart_file_object.py:40-41 | a slice bound in range is itself; a negative bound counts from the end; the result never exceeds the length |
| Bytes.Drop | nimbus_client/core/metadata_file.py:71 | `s[lo:]`: the tail from lo, or empty past the end |
| Records.Key.Dump | nimbus_client/core/metadata_file.py:56-57 | a dumped key is exactly KEY_LEN = 13 bytes and ends with its key type |
| Records.Key.FromDump | nimbus_client/core/metadata_file.py:38-41 | unpacking succeeds exactly on 13-byte buffers |
| Records.KeyRoundTrip | nimbus_client/core/metadata_file.py:38-57 | `Key.from_dump(k.dump())` gives back key type, parent id and item hash |
| Records.KeyDumpInjective | nimbus_client/core/metadata_file.py:265-279 | two keys share a table slot exactly when they are the same key |
| Records.IdsRoundTrip | nimbus_client/core/metadata_file.py:80-88 | decoding the packed child ids gives the ids back in order |
| Records.ChildAddrList.BSize | nimbus_client/core/metadata_file.py:117-119 | b_size is a multiple of 256 and strictly greater than a_size = 16 + 8 per child, by at most 256 |
| Records.ChildAddrList.Encoding | nimbus_client/core/metadata_file.py:116-124 | the dump succeeds exactly when b_size fits its 32-bit header field, and is then b_size bytes long |
| Records.ChildAddrList.Dump | nimbus_client/core/metadata_file.py:116-124 | the header-ids-padding loop computes Encoding |
| Records.ChildAddrList.Remove | nimbus_client/core/metadata_file.py:106-111 | fails exactly when the id is absent; otherwise deletes the first occurrence only, keeping the rest in order |
| Records.BlockFromDump | nimbus_client/core/metadata_file.py:74-90 | the cursor loop over the id fields computes ParseBlock, including the failure on a partial field |
| Records.ParseBlock | nimbus_client/core/metadata_file.py:74-90 | a dump shorter than the 16-byte header raises; a parsed block's ids fit inside the dump after the header, and what is returned after the block is a suffix of the dump |
| Records.ParseHeader | nimbus_client/core/metadata_file.py:68-71 | header_from_dump succeeds exactly on dumps of at least 16 bytes, and wherever from_dump succeeds it gives the same item id and the same rest |
| Records.ParseBlockMisaligned | nimbus_client/core/metadata_file.py:82-88 | id fields that are not whole eight-byte units make from_dump fail |
| Records.BlockRoundTrip | nimbus_client/core/metadata_file.py:68-90 | `from_dump(dump(l) + rest)` gives l (same item id, same ids in order) and exactly rest; `header_from_dump` gives l's item id and rest |
| Records.DumpItems | nimbus_client/core/metadata_file.py:158-162 | the `s += i_addr.dump()` loop computes EncodeItems |
| Records.EncodeItemsSnoc | nimbus_client/core/metadata_file.py:158-162 | appending a block appends its dump |
| Records.EncodeItemsFailurePersists | nimbus_client/core/metadata_file.py:158-162 | once a block cannot be packed, the whole dump fails with that error |
| Records.EncodeItemsSucceeds | nimbus_client/core/metadata_file.py:158-162 | AddressItems.dump succeeds exactly when every block's dump succeeds |
| Records.EncodeItemsPadded | nimbus_client/core/metadata_file.py:158-162 | the dump is a whole number of 256-byte units, and is empty only for no blocks |
| Records.ParseItems | nimbus_client/core/metadata_file.py:130-137 | a successful parse yields at least one block |
| Records.ItemsFromDump | nimbus_client/core/metadata_file.py:130-137 | the loop over the shrinking buffer computes ParseItems |
| Records.ItemsRoundTrip | nimbus_client/core/metadata_file.py:130-162 | for a non-empty AddressItems, from_dump(dump(items)) gives the same blocks in the same order |
| Records.ItemIds | nimbus_client/core/metadata_file.py:140-146 | the generator loop computes IterItemIds |
| Records.IterItemIds | nimbus_client/core/metadata_file.py:140-146 | a successful walk yields at least one id and at most one per byte, starting with the first header's item id |
| Records.IterIdsAreOwners | nimbus_client/core/metadata_file.py:130-146 | wherever from_dump succeeds, iter_item_ids yields the blocks' item ids in order |
| Records.OwnerIndex | nimbus_client/core/metadata_file.py:173-177 | the first block owned by the id, or the end when there is none |
| Records.RemoveItem | nimbus_client/core/metadata_file.py:172-182 | fails exactly when no block is owned by the id; otherwise removes the first such block, keeps the others in order and returns the removed one |
| Records.ItemBlockSize | nimbus_client/core/metadata_file.py:333-334 | the record size is a multiple of 128, greater than 9 + dump length by at most 128 |
| Records.PadItem | nimbus_client/core/metadata_file.py:326-338 | padding succeeds exactly when the size fits its 32-bit header field |
| Records.UnpadItem | nimbus_client/core/metadata_file.py:340-343 | unpacking succeeds exactly when the 9-byte header is there; the dump lies inside the record and the type is the header's ninth byte |
| Records.ItemPaddingRoundTrip | nimbus_client/core/metadata_file.py:326-343 | unpadding a padded record gives back the dump and IT_FILE or IT_DIRECTORY; the record is a multiple of 128 and longer than 9 + dump length |
| Store.AddressBlocks | nimbus_client/core/metadata_file.py:362-366 | a present address record of a valid table decodes to at least one block |
| Store.PutBlocks | nimbus_client/core/metadata_file.py:265-266 | writing a record succeeds exactly when the blocks can be packed, and adds only that key |
| Store.Put | nimbus_client/core/metadata_file.py:381-382 | a failed write leaves the table unchanged |
| Store.PutBlocksReadBack | nimbus_client/core/metadata_file.py:265-276 | a written record reads back as the blocks written, and every other record as before |
| Store.PutBlocksKeepsTableOk | nimbus_client/core/metadata_file.py:265-266 | writing a non-empty AddressItems keeps the table invariant |
| Store.PutItemKeepsRecords | nimbus_client/core/metadata_file.py:265-266 | writing an item record changes no address record and keeps the invariant |
| Store.ItemMDOf | nimbus_client/core/metadata_file.py:309-324 | a loaded item carries the id it was loaded under; a missing record raises NotFound |
| Store.PadMD | nimbus_client/core/metadata_file.py:326-338 | a padded item record unpads to the item's dump and its IT_FILE/IT_DIRECTORY type, and is whole 128-byte units |
| Store.ItemRecordReadBack | nimbus_client/core/metadata_file.py:309-343 | a padded item record written under an id loads back as the metadata written |
| Store.FirstNamed | nimbus_client/core/metadata_file.py:296-300 | the answer is a candidate carrying the name; "none" means every candidate loaded and none carries it |
| Store.ChildId | nimbus_client/core/metadata_file.py:281-307 | a missing (dir, hash(name)) record raises PathException; an answer is one of the record's item ids and, when there are several, an item called name |
| Store.NameTaken | nimbus_client/core/metadata_file.py:412-423 | `__exists` is true exactly when some id of the (parent, hash(name)) record names an item called name |
| Store.Resolve | nimbus_client/core/metadata_file.py:564-576 | a resolved item has an item id |
| Store.Walk | nimbus_client/core/metadata_file.py:566-573 | components that are all empty or ROOT_NAME leave the walk where it started; ending elsewhere needs a real component |
| Store.Listing | nimbus_client/core/metadata_file.py:431-443 | a listing is exactly the loaded records of the ids in the directory's own blocks, one per id and in order |
| Store.ItemMDs | nimbus_client/core/metadata_file.py:439-442 | the records of the ids, one per id and in order; a failure means some id does not load |
| Store.ItemMDsAppend | nimbus_client/core/metadata_file.py:439-442 | loading the records of a + b loads those of a, then those of b |
| Store.NextCounter | nimbus_client/core/metadata_file.py:449-451 | the counter step always lands in [1, MAX_ITEM_ID) |
| Store.FreeIdSearch | nimbus_client/core/metadata_file.py:445-455 | a found id lies in [1, MAX_ITEM_ID), differs from the start value, had no item record, and is where the counter stops; otherwise NoFreeIdentificator (FoundIsFirst: every id passed before it was taken) |
| Store.FreeIdSearchStep | nimbus_client/core/metadata_file.py:448-455 | one probe: stop at the start value, return a free id, or step on past a taken one |
| Store.SearchVisits | nimbus_client/core/metadata_file.py:448-455 | every id the probe loop passes before giving up was taken |
| Store.FoundIsFirst | nimbus_client/core/metadata_file.py:448-455 | the id found is the first free one after the counter: every id the loop passed before it had an item record |
| Store.FreeIdSearchAsWritten | nimbus_client/core/metadata_file.py:445-455 | where the loop as written ends, it returns a free id in [1, MAX_ITEM_ID) other than the start value, or raises NoFreeIdentificator at the start value |
| Store.NoFreeIdMeansFull | nimbus_client/core/metadata_file.py:445-455 | NoFreeIdentificator after a full round means every id in [1, MAX_ITEM_ID) other than the start value is taken |
| Store.AsWrittenNeverStopsFromZero | nimbus_client/core/metadata_file.py:445-455 | from a fresh counter (0) on a full table the loop as written never ends |
| Store.BoundedSearchStopsFromZero | nimbus_client/core/metadata_file.py:445-455 | with the one-round probe budget the same case raises NoFreeIdentificator |
| Store.Cancelled | nimbus_client/core/metadata_file.py:470-475 | cancelling only ever removes keys |
| Store.CancelUndoesReserve | nimbus_client/core/metadata_file.py:457-475 | cancelling the reservation of the id the search has just found gives back the table as it was |
| Store.CancelKeepsRecords | nimbus_client/core/metadata_file.py:470-475 | a record that is not RESERVE_ITEM is never deleted by a cancel |
| Store.AddChildToOwner | nimbus_client/core/metadata_file.py:389-392 | only the first block owned by the directory gets the id, at its end; every other block and all owners stay as they were |
| Store.RemoveFromOwners | nimbus_client/core/metadata_file.py:407-409 | succeeds exactly when every block owned by the directory lists the id, and then removes it from each of them; otherwise it raises |
| Store.ChildAdded | nimbus_client/core/metadata_file.py:384-399 | a failed write changes nothing; a successful one adds at most the directory's (parent, hash(name)) record |
| Store.ChildRemoved | nimbus_client/core/metadata_file.py:401-410 | raises without writing when the record is missing; a successful remove rewrites an existing record and adds no key |
| Store.AddrUpdated | nimbus_client/core/metadata_file.py:358-382 | success needs a_key's record to decode; a move needs a block of the id there and ends with save_a_key's record present; without save_a_key only a_key is written |
| Store.MoveBlockIn | nimbus_client/core/metadata_file.py:373-382 | appending the moved block to save_a_key's record adds only that key, or changes nothing on failure |
| Store.AddrUpdatedAsWritten | nimbus_client/core/metadata_file.py:358-382 | the same guarantees for the code as written |
| Store.AddrItemUpdated | nimbus_client/core/metadata_file.py:345-356 | same name and parent: nothing changes; otherwise a success leaves the item's new (parent, hash(name)) record present |
| Store.AddrItemUpdatedAsWritten | nimbus_client/core/metadata_file.py:345-356 | as written: same name and parent leave the table alone; a rename leaves the new record present |
| Store.Reparented | nimbus_client/core/metadata_file.py:351-356 | a parent change only adds keys; a success had a loadable old parent and leaves the new parent's item record present |
| Store.AppendedUnder | nimbus_client/core/metadata_file.py:495-514 | append under a known directory only adds keys; on success it returns md, with the item record, the directory's record and the (dir, hash(name)) record present |
| Store.RecordsWritten | nimbus_client/core/metadata_file.py:509-514 | only the item's and the parent's item records change, and the item's is present on success |
| Store.Appended | nimbus_client/core/metadata_file.py:477-516 | append only adds keys; a success returns an item with an id whose record is present; without a path the counter is untouched |
| Store.Updated | nimbus_client/core/metadata_file.py:518-530 | a successful update had a stored item, leaves its record present and returns md, with only the time changed and only for a directory |
| Store.EmptyDirCheck | nimbus_client/core/metadata_file.py:541-550 | passing means the item's first own block has no children; on a readable record the only failure is NotEmpty |
| Store.Removed | nimbus_client/core/metadata_file.py:532-562 | remove only deletes keys; a success had the item record and deletes it and the (parent, hash(name)) record, after the empty-directory check passed |
| Store.KeysDeleted | nimbus_client/core/metadata_file.py:556-560 | two successful deletes remove exactly those two keys |
| StoreProperties.AddrWriteKeepsItems | nimbus_client/core/metadata_file.py:56-57 | writing or deleting an address record never changes an item record |
| StoreProperties.PutEffect | nimbus_client/core/metadata_file.py:265-266 | a written record reads back as written; nothing else changes and the invariant holds |
| StoreProperties.DeleteEffect | nimbus_client/core/metadata_file.py:278-279 | a deleted address record reads back as no blocks; nothing else changes |
| StoreProperties.ChildAddedEffect | nimbus_client/core/metadata_file.py:384-399 | the id ends the directory's first block, or a new record holds just that block; nothing else changes |
| StoreProperties.ChildRemovedEffect | nimbus_client/core/metadata_file.py:401-410 | fails exactly when the record is missing, a block of the directory lacks the id, or packing fails; otherwise the id leaves every block of the directory and nothing else changes |
| StoreProperties.AddThenRemoveChild | nimbus_client/core/metadata_file.py:384-410 | adding a new child and removing it again restores the blocks |
| StoreProperties.RemoveFromOwnersKeepsOwners | nimbus_client/core/metadata_file.py:401-410 | removing a child never changes which items own blocks |
| StoreProperties.AddrUpdatedAppendsBlock | nimbus_client/core/metadata_file.py:378-382 | without save_a_key, an empty block for the id is appended to the record |
| StoreProperties.AddrUpdatedMoves | nimbus_client/core/metadata_file.py:358-382 | a rename moves the item's block, children included, to the end of the new record; the old record keeps the other blocks or is deleted once empty; nothing else changes |
| StoreProperties.OwnersRemoved | nimbus_client/core/metadata_file.py:172-182 | taking out a block takes its owner out of the owners once |
| StoreProperties.AddrUpdatedLeavesNoBlock | nimbus_client/core/metadata_file.py:358-382 | after the move the id owns no block in the old record and one more in the new one |
| StoreProperties.AddrUpdatedAsWrittenLeavesBlock | nimbus_client/core/metadata_file.py:368-382 | as written, a record with another block besides the moved one keeps the moved block too |
| StoreProperties.ChildIdIsOwner | nimbus_client/core/metadata_file.py:281-307 | `__get_child_id` only answers with the owner of a block in the (dir, hash(name)) record |
| StoreProperties.SoleCandidateIsChild | nimbus_client/core/metadata_file.py:289-302 | a sole candidate is returned without loading its record or comparing names |
| StoreProperties.ChildAddedOwners | nimbus_client/core/metadata_file.py:384-399 | adding a child changes no record's owners, except that a directory without a record gets one holding its own block |
| StoreProperties.ChildRemovedOwners | nimbus_client/core/metadata_file.py:401-410 | removing a child changes no record's owners |
| StoreProperties.ReparentedOwners | nimbus_client/core/metadata_file.py:351-356 | a parent change changes no record's owners, except for a new parent without a record |
| StoreProperties.ReparentedMovesChild | nimbus_client/core/metadata_file.py:351-356 | a parent change moves the id from the old parent's child list to the new parent's |
| StoreProperties.MoveWithoutRenameAsWrittenLosesItem | nimbus_client/core/metadata_file.py:345-356 | as written, an item moved to another directory under the same name is not found there |
| StoreProperties.MovedIntoEmptyRecord | nimbus_client/core/metadata_file.py:373-382 | a block moved into an empty record is its only block |
| StoreProperties.UpdateMovesAddressRecord | nimbus_client/core/metadata_file.py:345-382 | with the correction, a renamed or moved item whose new (parent, hash(name)) record was empty is found there by `__get_child_id` |
| StoreProperties.ItemWriteKeepsOthers | nimbus_client/core/metadata_file.py:509 | writing one item record leaves every other item record as it was |
| StoreProperties.AppendRejectsExisting | nimbus_client/core/metadata_file.py:501-505 | append raises AlreadyExists for a taken name or an id holding a non-reserve record, and writes nothing |
| StoreProperties.AppendedUnderSteps | nimbus_client/core/metadata_file.py:507-514 | a successful append performs its writes in the source's order |
| StoreProperties.RecordsWrittenEffect | nimbus_client/core/metadata_file.py:509-514 | the item record and the parent's record are written; no address record changes |
| StoreProperties.AppendedUnderEffect | nimbus_client/core/metadata_file.py:497-514 | after a successful append the name was free, the id ends the parent's child list, an empty block for it ends the (parent, hash(name)) record, the item loads back as stored, and a non-root parent gets the new time |
| StoreProperties.AppendedRoot | nimbus_client/core/metadata_file.py:489-493 | item id 0 without a path writes the root's item record and nothing else |
| StoreProperties.AppendedTakesFreeId | nimbus_client/core/metadata_file.py:479-484 | without an item id, append takes the free id the probe loop finds and files the item under the directory the path names |
| StoreProperties.RemoveRejects | nimbus_client/core/metadata_file.py:534-550 | remove raises for a missing item and NotEmpty for a directory with children, writing nothing |
| StoreProperties.RemovedTable | nimbus_client/core/metadata_file.py:553-560 | the table after remove: the parent's blocks without the id, less the (parent, hash(name)) record and the item record |
| StoreProperties.RemovedEffect | nimbus_client/core/metadata_file.py:533-562 | a successful remove had an existing item and, for a directory, no children; both records are gone |
| StoreProperties.RemovedUnlists | nimbus_client/core/metadata_file.py:553-554 | remove takes the id out of the parent's blocks |
| StoreProperties.OtherDeletesKeepRecord | nimbus_client/core/metadata_file.py:557-560 | deleting other keys leaves a record as it was |
| StoreProperties.RemoveDropsCollidingSibling | nimbus_client/core/metadata_file.py:557 | deleting the whole record drops a sibling filed under a colliding name: it is no longer found |
| StoreProperties.UpdatedStoresRecord | nimbus_client/core/metadata_file.py:519-528 | a successful update stores the metadata it returns, with a new time for a directory |
| StoreProperties.WalkAppend | nimbus_client/core/metadata_file.py:566-573 | walking a + b walks a and then b from where a ended; a failure stops the walk |
| StoreProperties.ResolveRoot | nimbus_client/core/metadata_file.py:566-574 | "" and "/" both name the root, id 0 |
| StoreProperties.ResolveLeadingSeparator | nimbus_client/core/metadata_file.py:566-571 | a leading '/' does not change what a path names |
| StoreProperties.ResolveTrailingSeparator | nimbus_client/core/metadata_file.py:566-571 | a trailing '/' does not change what a path names |
| StoreProperties.ResolveChild | nimbus_client/core/metadata_file.py:569-574 | dir/name is looked up with `__get_child_id` among the children of what dir names |
| ChildrenInvariant.RemoveKeepsOthers | nimbus_client/core/metadata_file.py:106-111 | removing an id from a block lists nothing new and lists that id once less |
| ChildrenInvariant.RemoveFromOwnersKeepsOthers | nimbus_client/core/metadata_file.py:407-409 | taking an id out of a directory's blocks lists nothing new |
| ChildrenInvariant.RemoveFromOwnersDropsSole | nimbus_client/core/metadata_file.py:407-409 | an id listed once, in a block of the directory, is listed nowhere after the removal |
| ChildrenInvariant.AddedChildren | nimbus_client/core/metadata_file.py:389-392 | adding an id to the directory's first block lists that id and nothing else new |
| ChildrenInvariant.OwnedAreListed | nimbus_client/core/metadata_file.py:439-441 | the children listdir reads from the directory's own blocks are among all the ids the record lists |
| ChildrenInvariant.PutLoads | nimbus_client/core/metadata_file.py:265-266 | writing blocks that list only loadable (or pending) ids keeps the invariant and changes no item record |
| ChildrenInvariant.DeleteLoads | nimbus_client/core/metadata_file.py:278-279 | deleting an address record keeps the invariant, reads back as no blocks and changes nothing else |
| ChildrenInvariant.ItemWriteLoads | nimbus_client/core/metadata_file.py:509 | writing a loadable item record takes its id off the pending ids |
| ChildrenInvariant.ItemDeleteLoads | nimbus_client/core/metadata_file.py:560 | deleting an item record leaves only that id unaccounted for and changes no address record |
| ChildrenInvariant.ChildAddedLoads | nimbus_client/core/metadata_file.py:384-399 | __append_addr_child keeps the invariant once the new child loads or is pending, and changes no item record |
| ChildrenInvariant.ChildRemovedLoads | nimbus_client/core/metadata_file.py:401-410 | __remove_addr_child keeps the invariant and changes no item record |
| ChildrenInvariant.ChildRemovedBlocks | nimbus_client/core/metadata_file.py:401-410 | __remove_addr_child rewrites the directory's record only |
| ChildrenInvariant.AddrUpdatedLoads | nimbus_client/core/metadata_file.py:358-382 | __update_addr keeps the invariant and changes no item record |
| ChildrenInvariant.LeftLoads | nimbus_client/core/metadata_file.py:368-371 | the record a move leaves behind, written back or deleted, keeps the invariant |
| ChildrenInvariant.MovedInLoads | nimbus_client/core/metadata_file.py:373-382 | the moved block joining save_a_key's record keeps the invariant |
| ChildrenInvariant.ReparentedLoads | nimbus_client/core/metadata_file.py:351-356 | a parent change keeps the invariant for an item that loads |
| ChildrenInvariant.AddrItemUpdatedLoads | nimbus_client/core/metadata_file.py:345-356 | __update_addr_item keeps the invariant for an item that loads |
| ChildrenInvariant.AppendedUnderKeepsChildrenLoad | nimbus_client/core/metadata_file.py:495-514 | a successful append keeps every listed child loadable, also when the directory's record and the new (dir, hash(name)) record are one record |
| ChildrenInvariant.UpdatedKeepsChildrenLoad | nimbus_client/core/metadata_file.py:518-530 | a successful update keeps every listed child loadable |
| ChildrenInvariant.RemovedKeepsChildrenLoad | nimbus_client/core/metadata_file.py:532-562 | a successful remove keeps every listed child loadable when the item was listed once, in its parent's block |
| ChildrenInvariant.UnlistedThenDeletedLoads | nimbus_client/core/metadata_file.py:553-560 | the writes of remove from __remove_addr_child on keep the invariant for an id listed once |
| ChildrenInvariant.DeletesLoad | nimbus_client/core/metadata_file.py:556-560 | remove's two deletions leave only the removed id unaccounted for |
| ChildrenInvariant.UnlistedAfterRemove | nimbus_client/core/metadata_file.py:553-560 | after remove's writes the removed id is listed in no address record |
| ChildrenInvariant.DeletedBlocks | nimbus_client/core/metadata_file.py:556-560 | the two deletions empty a_key's record and leave every other address record as it was |
| ChildrenInvariant.FailedAppendLeavesUnrecordedChild | nimbus_client/core/metadata_file.py:507-509 | an append that raises after __append_addr_child (the dump cannot be padded or the record packed) leaves the new id listed in the directory with no item record, breaking the invariant: nothing is rolled back |
| ChildrenInvariant.ListsAfterChildAdded | nimbus_client/core/metadata_file.py:384-399 | after __append_addr_child a block of the directory lists the id |
| ChildrenInvariant.KeepsListing | nimbus_client/core/metadata_file.py:378-382 | appending an empty block to a record keeps every listing in the table |
| ChildrenInvariant.ListingSucceeds | nimbus_client/core/metadata_file.py:431-443 | with the invariant, listdir of any path that find resolves succeeds |
| ChildrenInvariant.AppendedIsRecorded | nimbus_client/core/metadata_file.py:507-514 | after an append under a directory that owns its block, that block lists the new id and its record loads as the appended metadata |
| ChildrenInvariant.AppendedIsListed | nimbus_client/core/metadata_file.py:431-443 | after such an append, listdir of any path leading to the directory succeeds and contains the new item |
| Paths.Split | nimbus_client/core/metadata_file.py:566 | `path.split('/')` gives at least one piece, and no piece holds a separator |
| Paths.JoinSplit | nimbus_client/core/metadata_file.py:566 | the pieces joined with '/' give the path back |
| Paths.SplitJoin | nimbus_client/core/metadata_file.py:566 | pieces without separators come back from a join and a split |
| Paths.SplitAround | nimbus_client/core/metadata_file.py:566 | splitting s + "/" + u gives the pieces of s, then those of u |
| MetadataFiles.MetadataFile.constructor | nimbus_client/core/metadata_file.py:258-259 | a fresh database (no journal, nothing stored yet) starts with the root directory's record only and the counter at 0 |
| MetadataFiles.MetadataFile.LoadBlocks | nimbus_client/core/metadata_file.py:362-366 | reading a record computes AddressBlocks |
| MetadataFiles.MetadataFile.ReadBlocks | nimbus_client/core/metadata_file.py:362-366 | on a valid table an address record decodes; it is non-empty exactly when the record is present |
| MetadataFiles.MetadataFile.FirstWithName | nimbus_client/core/metadata_file.py:296-300 | the candidate loop computes FirstNamed |
| MetadataFiles.MetadataFile.GetChildId | nimbus_client/core/metadata_file.py:281-307 | computes ChildId |
| MetadataFiles.MetadataFile.Exists | nimbus_client/core/metadata_file.py:412-423 | computes NameTaken |
| MetadataFiles.MetadataFile.Find | nimbus_client/core/metadata_file.py:564-576 | the component loop computes Resolve |
| MetadataFiles.MetadataFile.LoadItemMDs | nimbus_client/core/metadata_file.py:441-442 | the inner loop of listdir computes ItemMDs |
| MetadataFiles.MetadataFile.ListDir | nimbus_client/core/metadata_file.py:431-443 | computes Listing: the records of the children in the directory's own blocks |
| MetadataFiles.MetadataFile.RegisterItemById | nimbus_client/core/metadata_file.py:457-464 | true exactly when the id had no record; the reservation is written only when check_only is unset |
| MetadataFiles.MetadataFile.GetNextItemId | nimbus_client/core/metadata_file.py:445-455 | counter and result are FreeIdSearch's (the first free id after the counter, see FoundIsFirst); RESERVE_ITEM is written only with with_reserve |
| MetadataFiles.MetadataFile.GenerateItemId | nimbus_client/core/metadata_file.py:466-468 | a found id is reserved |
| MetadataFiles.MetadataFile.CancelItemIdReserve | nimbus_client/core/metadata_file.py:470-475 | the table becomes Cancelled |
| MetadataFiles.MetadataFile.WriteBlocks | nimbus_client/core/metadata_file.py:265-266 | the table becomes Put's |
| MetadataFiles.MetadataFile.AppendAddrChild | nimbus_client/core/metadata_file.py:384-399 | the table becomes ChildAdded's |
| MetadataFiles.MetadataFile.RemoveAddrChild | nimbus_client/core/metadata_file.py:401-410 | the table becomes ChildRemoved's |
| MetadataFiles.MetadataFile.UpdateAddr | nimbus_client/core/metadata_file.py:358-382 | the table becomes AddrUpdated's |
| MetadataFiles.MetadataFile.UpdateAddrItem | nimbus_client/core/metadata_file.py:345-356 | the table becomes AddrItemUpdated's |
| MetadataFiles.MetadataFile.WriteItem | nimbus_client/core/metadata_file.py:509 | succeeds exactly when the record can be padded, then stores it under the item key; a failure changes nothing |
| MetadataFiles.MetadataFile.Append | nimbus_client/core/metadata_file.py:477-516 | counter, table and result are Appended's |
| MetadataFiles.MetadataFile.AppendUnder | nimbus_client/core/metadata_file.py:495-514 | the table and result are AppendedUnder's |
| MetadataFiles.MetadataFile.Update | nimbus_client/core/metadata_file.py:518-530 | the table and result are Updated's |
| MetadataFiles.MetadataFile.Remove | nimbus_client/core/metadata_file.py:532-562 | the table and result are Removed's |
| MetadataFiles.MetadataFile.CheckEmptyDir | nimbus_client/core/metadata_file.py:541-550 | the loop over a directory's record computes EmptyDirCheck |
| MetadataFiles.MetadataFile.DeleteKeys | nimbus_client/core/metadata_file.py:556-560 | the table becomes KeysDeleted's |
| MetadataFiles.AppendToOwner | nimbus_client/core/metadata_file.py:389-392 | the loop computes AddChildToOwner |
| MetadataFiles.RemoveFromEachOwner | nimbus_client/core/metadata_file.py:407-409 | the loop computes RemoveFromOwners |
| DataBlocks.Incremented | nimbus_client/core/data_block.py:26-32 | set raises the object's count by one, from 0 when absent, and touches no other count |
| DataBlocks.Decremented | nimbus_client/core/data_block.py:34-43 | release fails with KeyError exactly when the object has no entry; otherwise a count above 1 drops by one and a count of at most 1 is deleted; no other count changes |
| DataBlocks.SetThenRelease | nimbus_client/core/data_block.py:26-43 | a set followed by a release restores the table |
| DataBlocks.LockedIffListed | nimbus_client/core/data_block.py:45-53 | in a reachable table, locked exactly when the object has an entry |
| DataBlocks.DBLocksManager.constructor | nimbus_client/core/data_block.py:22-24 | a new manager has no entries |
| DataBlocks.DBLocksManager.Set | nimbus_client/core/data_block.py:26-32 | the table becomes Incremented |
| DataBlocks.DBLocksManager.Release | nimbus_client/core/data_block.py:34-43 | the table becomes Decremented, or KeyError with the table unchanged |
| DataBlocks.DBLocksManager.Locked | nimbus_client/core/data_block.py:45-53 | true exactly when the count is positive, that is, when the object has an entry |
| DataBlocks.FileRead | nimbus_client/core/data_block.py:197 | a file read returns at most what was asked for and loses no byte |
| DataBlocks.ReadTries | nimbus_client/core/data_block.py:190-218 | the retry loop returns at most what remains to be read and advances the seek by exactly what it returns; with no tries left it times out |
| DataBlocks.ReadTriesFacts | nimbus_client/core/data_block.py:184-220 | the retry loop returns at most what was asked, advances the seek by exactly what it returns, loses no byte, and comes back short only at the end of the block or on a timeout |
| DataBlocks.DataBlock.ExpectedLen | nimbus_client/core/data_block.py:78-83 | a known length comes from the encoder and is positive; None and 0 both count as unknown |
| DataBlocks.DataBlock.constructor | nimbus_client/core/data_block.py:67-90 | with a lock manager, the path is registered once and the block is locked; without one it is not locked |
| DataBlocks.DataBlock.Write | nimbus_client/core/data_block.py:111-131 | the seek grows by the length of what is written after encryption |
| DataBlocks.DataBlock.Close | nimbus_client/core/data_block.py:137-143 | a locked block releases its path once and clears the flag; an unlocked block releases nothing |
| DataBlocks.DataBlock.ReadBuf | nimbus_client/core/data_block.py:184-220 | raises on an unknown size, returns None once the seek reaches the expected length, and otherwise returns what the retry loop read, at most n bytes, advancing the seek by exactly that |
| DataBlocks.DataBlock.RetryReads | nimbus_client/core/data_block.py:190-218 | the `for`/`else` retry loop computes ReadTries |
| DataBlocks.DataBlock.Read | nimbus_client/core/data_block.py:162-178 | returns at most rlen characters; carried-over rest plus new decrypted data equals what is returned plus the new rest, so all returned strings concatenate to the decrypted chunks |
| SmartFiles.WithTx | nimbus_client/core/smart_file_object.py:89-90 | a transaction is started only when none is open, and then gets the manager's next id |
| SmartFiles.Send | nimbus_client/core/smart_file_object.py:86-97 | the block goes out with the file offset and the counted size; the offset then advances by the counted size, and the count, the block and the dirty flag are cleared; failures leave the transaction started |
| SmartFiles.Failed | nimbus_client/core/smart_file_object.py:99-102 | an open transaction is marked TS_FAILED; otherwise nothing happens |
| SmartFiles.WithBlock | nimbus_client/core/smart_file_object.py:34-35 | a new data block is requested only when none is current |
| SmartFiles.FirstPart | nimbus_client/core/smart_file_object.py:37-43 | all the data when it fits, else exactly what tops the block up to MAX_DATA_BLOCK_SIZE; never nothing into an empty block |
| SmartFiles.Recounted | nimbus_client/core/smart_file_object.py:49-55 | line 52 adds the spilled length to the count; a failure marks the transaction failed |
| SmartFiles.Written | nimbus_client/core/smart_file_object.py:32-55 | a write that does not fail leaves a current block and the object dirty; data that fits is appended to the block and nothing is sent |
| SmartFiles.WrittenCorrected | nimbus_client/core/smart_file_object.py:32-55 | the same guarantees for the write without line 52 |
| SmartFiles.WrittenKeepsBytes | nimbus_client/core/smart_file_object.py:32-55 | write loses and reorders no byte: what was sent plus the current block grows by exactly the data |
| SmartFiles.WrittenFits | nimbus_client/core/smart_file_object.py:37-47 | data that fits goes into the current block, counted once, marking the object dirty |
| SmartFiles.WrittenExtends | nimbus_client/core/smart_file_object.py:32-55 | a write only adds to what the manager has received |
| SmartFiles.RecountedExtends | nimbus_client/core/smart_file_object.py:49-55 | line 52 and the failure path only add to what the manager has received |
| SmartFiles.WrittenSpills | nimbus_client/core/smart_file_object.py:37-51 | a spilling write first sends the block topped up to exactly MAX_DATA_BLOCK_SIZE counted bytes |
| SmartFiles.SpillCountsTwice | nimbus_client/core/smart_file_object.py:46-52 | with a maximum of 2, writing three bytes leaves one byte in the block but a count of 2 |
| SmartFiles.OversizedBlockSent | nimbus_client/core/smart_file_object.py:38-52 | three writes send a three-byte block labelled five bytes long, at offset 4 |
| SmartFiles.SecondWrite | nimbus_client/core/smart_file_object.py:37-52 | second step of that exhibit: the one-byte block goes out labelled two bytes |
| SmartFiles.ThirdWrite | nimbus_client/core/smart_file_object.py:38-52 | third step: `data[:-2]` keeps one byte and the sent block holds three |
| SmartFiles.CorrectedWriteCounts | nimbus_client/core/smart_file_object.py:32-55 | without line 52 the count equals the block's bytes, blocks stay within the maximum, and each is sent labelled with its true size |
| SmartFiles.Closed | nimbus_client/core/smart_file_object.py:80-84 | a clean object does nothing; a dirty one sends its pending block, if any, and then marks the transaction TS_LOCAL_SAVED |
| SmartFiles.WriteThenCloseDelivers | nimbus_client/core/smart_file_object.py:32-97 | after a successful write and close the manager has received the earlier data, the pending block and the new data, in order |
| SmartFiles.FetchFacts | nimbus_client/core/smart_file_object.py:66 | the fetched block followed by the file from the next offset is the file from the seek, and the next offset lies further on |
| SmartFiles.Fetch | nimbus_client/core/smart_file_object.py:66 | get_data_block serves data exactly while the seek is inside the file; an empty block comes with no next offset |
| SmartFiles.Taken | nimbus_client/core/smart_file_object.py:68 | a block read takes at most read_len bytes, and everything when fewer remain or read_len is falsy |
| SmartFiles.NextBlock | nimbus_client/core/smart_file_object.py:63-66 | the current block, or else the one fetched at the seek; the unread stream is preserved |
| SmartFiles.ReadLoop | nimbus_client/core/smart_file_object.py:57-77 | read stops with a partly read block only once it has at least read_len bytes |
| SmartFiles.ReadSpec | nimbus_client/core/smart_file_object.py:57-77 | read sends nothing and spends no transfer; it keeps a partly read block only once it has read_len bytes |
| SmartFiles.ReadLoopKeepsOrder | nimbus_client/core/smart_file_object.py:57-77 | read returns the next bytes of the file in order, and what it returns plus what is left is the old unread stream |
| SmartFiles.ReadLoopStops | nimbus_client/core/smart_file_object.py:62-76 | read stops once it has read_len bytes or the file ends, reads to the end without read_len, and as written returns fewer than twice read_len |
| SmartFiles.ReadReturnsTooMuch | nimbus_client/core/smart_file_object.py:68-73 | read(3) of a file stored as two 2-byte blocks returns four bytes |
| SmartFiles.CorrectedReadKeepsOrder | nimbus_client/core/smart_file_object.py:57-77 | the corrected read also returns the next bytes in order and loses none |
| SmartFiles.CorrectedReadIsExact | nimbus_client/core/smart_file_object.py:57-77 | the corrected read returns exactly read_len bytes unless the file ends first |
| SmartFiles.ReadLoopCorrected | nimbus_client/core/smart_file_object.py:57-77 | the corrected loop also stops with a partly read block only once it has read_len bytes |
| SmartFiles.TransactionsManager.constructor | nimbus_client/core/smart_file_object.py:18-22 | a manager that has recorded no call yet and serves the given stored blocks |
| SmartFiles.TransactionsManager.NewDataBlock | nimbus_client/core/smart_file_object.py:35 | records one new block request |
| SmartFiles.TransactionsManager.StartTransaction | nimbus_client/core/smart_file_object.py:59 | hands out the next transaction id and records the start |
| SmartFiles.TransactionsManager.TransferDataBlock | nimbus_client/core/smart_file_object.py:92 | records the transfer, or fails with nothing recorded |
| SmartFiles.TransactionsManager.UpdateTransactionState | nimbus_client/core/smart_file_object.py:84 | records the state change |
| SmartFiles.TransactionsManager.GetDataBlock | nimbus_client/core/smart_file_object.py:66 | serves the block at the seek and the next offset, as Fetch |
| SmartFiles.SmartFileObject.constructor | nimbus_client/core/smart_file_object.py:24-30 | offset 0, no block, count 0, no transaction, clean |
| SmartFiles.SmartFileObject.Write | nimbus_client/core/smart_file_object.py:32-55 | the new state and the error are Written's |
| SmartFiles.SmartFileObject.SendDataBlock | nimbus_client/core/smart_file_object.py:86-97 | the new state and the error are Send's |
| SmartFiles.SmartFileObject.FailedTransaction | nimbus_client/core/smart_file_object.py:99-102 | the new state is Failed's |
| SmartFiles.SmartFileObject.Close | nimbus_client/core/smart_file_object.py:80-84 | the new state and the error are Closed's |
| SmartFiles.SmartFileObject.Read | nimbus_client/core/smart_file_object.py:57-77 | the result and the new state are ReadSpec's |
| SmartFiles.SmartFileObject.ReadBlocks | nimbus_client/core/smart_file_object.py:62-76 | the block loop of read computes ReadLoop |

## Left out

- Opening, closing and deleting the database files, `close` persisting the counters, and `_print` are storage I/O and are not modelled. The table is an in-memory map.
- Journal replay and `__update_journal` depend on the `Journal` class, which is not part of this model. The constructor models only the path without a journal, which appends the root directory.
- `zlib.adler32` and the item metadata codec (`item_md.dump()`, `DirectoryMD`, `FileMD`) are parameters. The codec is assumed to load back every dump, up to the item id, which the store sets itself.
- An item whose `parent_dir_id` is None cannot be expressed: the parent id is a plain 64-bit value.
- `MDLock`, `threading.RLock` and every acquire/release pair are left out, since they add concurrency and no logic.
- `MAX_ITEM_ID`, `BUF_LEN`, `READ_TRY_COUNT` and `MAX_DATA_BLOCK_SIZE` come from modules that are not part of this model. They are parameters.
- SmartFiles.SmartFileObject.constructor: requires `MAX_DATA_BLOCK_SIZE` > 0, which the source takes for granted of its constant.
- `AddressItems.from_dump` and `iter_item_ids` loop forever on a block whose b_size is 0. The model reports `Diverges` there instead.
- `iter_item_ids` is a generator. The model collects what it yields into a list, so laziness is not modelled.
- DataBlock file handles and `os.path.exists`/`open` are left out. The file is a sequence of chunks that reach it over time, read by `FileRead`.
- The DataBlock SHA-1 checksum, `read_raw` (beyond the `__read_buf` call it makes), `finalize`, `get_progress`, `clone` and `is_locked` are left out.
- The sleep between read tries is left out, so timing is not modelled.
- The encoder of `SECURITY_MANAGER` is a parameter (`Codec`): an encrypt function, a decrypt function and the expected length.
- DataBlocks.DataBlock.Read: its contract is stated over the decrypted chunks (ghost `plain`), not over the file's raw bytes.
- The transactions manager is not part of this model. `TransactionsManager` records the calls made to it. `transfer_data_block` fails once a given number of transfers (`budget`) is used up. `get_data_block` serves a file stored as a list of blocks laid end to end.
- In `SmartFiles`, the data blocks that `SmartFileObject` writes are represented by their bytes, so their encryption and locks are not modelled there.
- MetadataFiles.MetadataFile.GetNextItemId: follows the one-round search (`FreeIdSearch`), not the unbounded loop as written. See Findings.
- MetadataFiles.MetadataFile.constructor: models opening a fresh database only. Reopening an existing one restores `__last_item_id` from the stored `last_item_id` value (metadata_file.py:205-206), and that path is not modelled, because the stored counters belong to the database file I/O left out above.
- MetadataFiles.MetadataFile.GenerateItemId: inherits GetNextItemId's one-round search, so where the loop as written never ends (see Findings) the model raises NoFreeIdentificator.
- MetadataFiles.MetadataFile.Append: takes its id from the same one-round search when no item id is given, so it is weaker than the code as written in the same case.
- MetadataFiles.MetadataFile.Update: follows the corrected `AddrItemUpdated` and `AddrUpdated`, not the code as written. See Findings.
- `to_str` on names (metadata_file.py:298, 346, 420) and `zlib.adler32` on unicode names are not modelled. Names are compared as plain character sequences, and the hash is a parameter.
- SmartFiles.ReadSpec: read cannot fail in the model. In the source a data block read can raise RuntimeError or TimeoutException (data_block.py:186, 218) inside the loop of smart_file_object.py:57-77. By then `__cur_data_block` and `__seek` are already updated, and the data gathered so far is lost. That failure path is left out because `SmartFiles` represents data blocks by their bytes.
- SmartFiles.SmartFileObject.Read: cannot fail, for the same reason.
- ChildrenInvariant.RemovedKeepsChildrenLoad: requires the removed id to be listed once, in its parent's block. An id also listed under another directory is left there with no item record, which breaks the invariant.
- ChildrenInvariant.AppendedIsListed: requires the directory's record, when present, to hold the directory's own block (`OwnsBlock`). When it does not, `__append_addr_child` writes the record back without the new id, and listdir does not show it.
- MetadataFiles.MetadataFile.UpdateAddr: follows the corrected `AddrUpdated`, not `AddrUpdatedAsWritten`. See Findings.
- MetadataFiles.MetadataFile.UpdateAddrItem: follows the corrected `AddrItemUpdated`, not `AddrItemUpdatedAsWritten`. See Findings.
- SmartFiles.SmartFileObject.Write: keeps line 52 as written, because the double count is the behaviour under study. `WrittenCorrected` holds the intended behaviour.
- SmartFiles.SmartFileObject.Read: keeps the read loop as written. `ReadLoopCorrected` holds the intended behaviour.
- The web front end and its menu script, the worker threads, the configuration wrapper and the daemon are outside the core and are not modelled.

## Findings

| source | as written | input that shows it | evidently intended | confidence | as-written member | corrected member |
|---|---|---|---|---|---|---|
| nimbus_client/core/metadata_file.py:445-455 | the counter restarts at 1 and the loop stops only when it returns to its start value, which 0 never is | a fresh counter (`__last_item_id` = 0) on a table whose ids in [1, MAX_ITEM_ID) are all taken loops forever | raise NoFreeIdentificator after one full round | not executed | Store.FreeIdSearchAsWritten, Store.AsWrittenNeverStopsFromZero | Store.FreeIdSearch, Store.NoFreeIdMeansFull, Store.BoundedSearchStopsFromZero |
| nimbus_client/core/metadata_file.py:368-382 | after removing the moved block, a_key's record is deleted when empty but never written back otherwise | renaming an item whose old (parent, hash(name)) record also holds a colliding sibling's block leaves the moved block in the old record too | write the shortened record back | not executed | Store.AddrUpdatedAsWritten, StoreProperties.AddrUpdatedAsWrittenLeavesBlock | Store.AddrUpdated, StoreProperties.AddrUpdatedMoves |
| nimbus_client/core/metadata_file.py:345-356 | the item's block moves between (parent, hash(name)) records only on a rename | moving an item to another directory under the same name: `__get_child_id` no longer finds it in the new directory | move the block whenever the name or the parent changes | not executed | Store.AddrItemUpdatedAsWritten, StoreProperties.MoveWithoutRenameAsWrittenLosesItem | Store.AddrItemUpdated, StoreProperties.UpdateMovesAddressRecord |
| nimbus_client/core/smart_file_object.py:46-52 | line 52 adds the spilled length to `__cur_db_seek`, which the recursive write already counted | with MAX_DATA_BLOCK_SIZE = 2, writes of [1,2,3], [4,5], [6,7,8] send a three-byte block labelled five bytes long at offset 4 | count each byte once | not executed | SmartFiles.Written, SmartFiles.SpillCountsTwice, SmartFiles.OversizedBlockSent | SmartFiles.WrittenCorrected, SmartFiles.CorrectedWriteCounts |
| nimbus_client/core/smart_file_object.py:68-73 | every block is asked for read_len bytes, not for what is still missing | read(3) of a file stored as blocks [1,2] and [3,4] returns four bytes | ask each block for `read_len - len(ret_data)` | not executed | SmartFiles.ReadLoop, SmartFiles.ReadReturnsTooMuch | SmartFiles.ReadLoopCorrected, SmartFiles.CorrectedReadKeepsOrder, SmartFiles.CorrectedReadIsExact |
