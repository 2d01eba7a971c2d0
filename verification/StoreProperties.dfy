/** What the writes of nimbus_client/core/metadata_file.py leave in the table:
    which address records and item records each one changes, and how. */
module StoreProperties {
  import opened Wrappers
  import opened Exceptions
  import opened Bytes
  import opened Records
  import opened Store
  import opened Paths

  /** `after` keeps the table invariant and differs from `before` at most in
      the address record at `k`: every other record decodes as before and
      every item record loads as before. */
  ghost predicate OnlyRecordChanged(before: Table, after: Table, env: Env, k: Key)
  {
    TableOk(after) &&
    (forall k2: Key :: k2 != k ==> AddressBlocks(after, k2) == AddressBlocks(before, k2)) &&
    (forall i: u64 :: ItemMDOf(after, env, i) == ItemMDOf(before, env, i))
  }

  /** Address keys and item keys never share a slot. */
  lemma AddrWriteKeepsItems(t: Table, env: Env, k: Key, v: bytes)
    requires k.keyType == KT_ADDR
    ensures forall i: u64 :: ItemMDOf(t[k.Dump() := v], env, i) == ItemMDOf(t, env, i)
    ensures forall i: u64 :: ItemMDOf(t - {k.Dump()}, env, i) == ItemMDOf(t, env, i)
  {
    forall i: u64
      ensures ItemMDOf(t[k.Dump() := v], env, i) == ItemMDOf(t, env, i)
      ensures ItemMDOf(t - {k.Dump()}, env, i) == ItemMDOf(t, env, i)
    {
      assert ItemKey(i).Dump()[KEY_LEN - 1] != k.Dump()[KEY_LEN - 1];
    }
  }

  /** A successful __set_raw_value of a non-empty AddressItems. */
  lemma PutEffect(t: Table, env: Env, k: Key, items: seq<ChildAddrList>)
    requires TableOk(t) && k.keyType == KT_ADDR && |items| > 0
    requires Put(t, k, items).result.Success?
    ensures AddressBlocks(Put(t, k, items).table, k) == Success(items)
    ensures OnlyRecordChanged(t, Put(t, k, items).table, env, k)
  {
    PutBlocksReadBack(t, k, items);
    PutBlocksKeepsTableOk(t, k, items);
    AddrWriteKeepsItems(t, env, k, EncodeItems(items).value);
  }

  /** __remove_key of an address record: it reads back as no blocks at all. */
  lemma DeleteEffect(t: Table, env: Env, k: Key)
    requires TableOk(t) && k.keyType == KT_ADDR
    ensures AddressBlocks(t - {k.Dump()}, k) == Success([])
    ensures OnlyRecordChanged(t, t - {k.Dump()}, env, k)
  {
    forall k2: Key | k2 != k
      ensures AddressBlocks(t - {k.Dump()}, k2) == AddressBlocks(t, k2)
    {
      KeyDumpInjective(k, k2);
    }
    AddrWriteKeepsItems(t, env, k, []);
  }

  // ---------------------------------------------------------------------------
  // __append_addr_child and __remove_addr_child
  // ---------------------------------------------------------------------------

  /** __append_addr_child: the directory's record gets `id` at the end of the
      directory's first block, or is created holding just that block with
      `id`; nothing else changes. */
  lemma ChildAddedEffect(t: Table, env: Env, dir: ItemMD, id: u64)
    requires TableOk(t) && dir.itemId.Some?
    requires ChildAdded(t, env, dir, id).result.Success?
    ensures Holds(t, DirKey(env, dir)) ==>
      AddressBlocks(ChildAdded(t, env, dir, id).table, DirKey(env, dir)) ==
      Success(AddChildToOwner(AddressBlocks(t, DirKey(env, dir)).value, dir.itemId.value, id))
    ensures !Holds(t, DirKey(env, dir)) ==>
      AddressBlocks(ChildAdded(t, env, dir, id).table, DirKey(env, dir)) ==
      Success([ChildAddrList(dir.itemId.value, [id])])
    ensures OnlyRecordChanged(t, ChildAdded(t, env, dir, id).table, env, DirKey(env, dir))
  {
    var k := DirKey(env, dir);
    if Holds(t, k) {
      var items := ParseItems(t[k.Dump()]).value;
      PutEffect(t, env, k, AddChildToOwner(items, dir.itemId.value, id));
    } else {
      PutEffect(t, env, k, [ChildAddrList(dir.itemId.value, [id])]);
    }
  }

  /** __remove_addr_child: it fails exactly when the directory's record is
      missing, some block of the directory does not list `id`, or the shorter
      record cannot be packed; otherwise `id` leaves every block of the
      directory and nothing else changes. */
  lemma ChildRemovedEffect(t: Table, env: Env, dir: ItemMD, id: u64)
    requires TableOk(t) && dir.itemId.Some?
    ensures var k := DirKey(env, dir);
      ChildRemoved(t, env, dir, id).result.Success? <==>
        Holds(t, k) &&
        RemoveFromOwners(AddressBlocks(t, k).value, dir.itemId.value, id).Success? &&
        EncodeItems(RemoveFromOwners(AddressBlocks(t, k).value, dir.itemId.value, id).value).Success?
    ensures ChildRemoved(t, env, dir, id).result.Success? ==>
      AddressBlocks(ChildRemoved(t, env, dir, id).table, DirKey(env, dir)) ==
      RemoveFromOwners(AddressBlocks(t, DirKey(env, dir)).value, dir.itemId.value, id)
    ensures ChildRemoved(t, env, dir, id).result.Success? ==>
      OnlyRecordChanged(t, ChildRemoved(t, env, dir, id).table, env, DirKey(env, dir))
    ensures ChildRemoved(t, env, dir, id).result.Failure? ==> ChildRemoved(t, env, dir, id).table == t
  {
    var k := DirKey(env, dir);
    if Holds(t, k) {
      var items := ParseItems(t[k.Dump()]).value;
      var removed := RemoveFromOwners(items, dir.itemId.value, id);
      if removed.Success? && EncodeItems(removed.value).Success? {
        PutEffect(t, env, k, removed.value);
      }
    }
  }

  /** Adding a child the directory's only block did not list and removing it
      again gives back the same blocks. */
  lemma AddThenRemoveChild(items: seq<ChildAddrList>, owner: u64, id: u64)
    requires OwnerIndex(items, owner) < |items|
    requires forall j :: 0 <= j < |items| && j != OwnerIndex(items, owner) ==> items[j].itemId != owner
    requires id !in items[OwnerIndex(items, owner)].childIds
    ensures RemoveFromOwners(AddChildToOwner(items, owner, id), owner, id) == Success(items)
  {
    var k := OwnerIndex(items, owner);
    var added := AddChildToOwner(items, owner, id);
    var ids := items[k].childIds;
    assert added[k].childIds == ids + [id];
    assert IndexOf(ids + [id], id) == |ids| by {
      IndexOfPastEnd(ids, id);
    }
    assert added[k] == ChildAddrList(owner, ids + [id]);
    assert added[k].Remove(id) == Success(items[k]) by {
      assert (ids + [id])[..|ids|] + (ids + [id])[|ids| + 1..] == ids;
    }
    var r := RemoveFromOwners(added, owner, id);
    assert r.Success?;
    assert r.value == items;
  }

  /** The first `x` in `s + [x]` when `s` holds none is the last position. */
  lemma {:induction false} IndexOfPastEnd<T>(s: seq<T>, x: T)
    requires x !in s
    ensures IndexOf(s + [x], x) == |s|
  {
    if s != [] {
      assert (s + [x])[1..] == s[1..] + [x];
      IndexOfPastEnd(s[1..], x);
    }
  }

  /** Removing a child id never changes which items own blocks. */
  lemma RemoveFromOwnersKeepsOwners(items: seq<ChildAddrList>, owner: u64, id: u64)
    requires RemoveFromOwners(items, owner, id).Success?
    ensures Owners(RemoveFromOwners(items, owner, id).value) == Owners(items)
  {
  }

  // ---------------------------------------------------------------------------
  // __update_addr
  // ---------------------------------------------------------------------------

  /** __update_addr(a_key, id) without save_a_key: an empty block for `id`
      is appended to a_key's record. */
  lemma AddrUpdatedAppendsBlock(t: Table, env: Env, aKey: Key, id: u64)
    requires TableOk(t) && aKey.keyType == KT_ADDR
    requires AddrUpdated(t, aKey, id, None).result.Success?
    ensures AddressBlocks(AddrUpdated(t, aKey, id, None).table, aKey) ==
      Success(AddressBlocks(t, aKey).value + [ChildAddrList(id, [])])
    ensures OnlyRecordChanged(t, AddrUpdated(t, aKey, id, None).table, env, aKey)
  {
    PutEffect(t, env, aKey, AddressBlocks(t, aKey).value + [ChildAddrList(id, [])]);
  }

  /** __update_addr(a_key, id, save_a_key) between two records: the first
      block owned by `id`, children included, leaves a_key's record (which
      reads back empty once it is deleted) and ends save_a_key's; no other
      record and no item record changes. */
  lemma AddrUpdatedMoves(t: Table, env: Env, aKey: Key, id: u64, saveKey: Key)
    requires TableOk(t) && aKey.keyType == KT_ADDR && saveKey.keyType == KT_ADDR && aKey != saveKey
    requires AddrUpdated(t, aKey, id, Some(saveKey)).result.Success?
    ensures var items := AddressBlocks(t, aKey).value;
      var k := OwnerIndex(items, id);
      var after := AddrUpdated(t, aKey, id, Some(saveKey)).table;
      k < |items| &&
      AddressBlocks(after, aKey) == Success(items[..k] + items[k + 1..]) &&
      AddressBlocks(after, saveKey) == Success(AddressBlocks(t, saveKey).value + [items[k]])
    ensures var after := AddrUpdated(t, aKey, id, Some(saveKey)).table;
      TableOk(after) &&
      (forall k2: Key :: k2 != aKey && k2 != saveKey ==> AddressBlocks(after, k2) == AddressBlocks(t, k2)) &&
      (forall i: u64 :: ItemMDOf(after, env, i) == ItemMDOf(t, env, i))
  {
    var items := AddressBlocks(t, aKey).value;
    var k := OwnerIndex(items, id);
    var rest := items[..k] + items[k + 1..];
    var t1: Table;
    if rest == [] {
      DeleteEffect(t, env, aKey);
      t1 := t - {aKey.Dump()};
    } else {
      PutEffect(t, env, aKey, rest);
      t1 := Put(t, aKey, rest).table;
    }
    PutEffect(t1, env, saveKey, AddressBlocks(t1, saveKey).value + [items[k]]);
  }

  /** Taking out block k takes its owner out of the owners, once. */
  lemma OwnersRemoved(items: seq<ChildAddrList>, k: nat)
    requires k < |items|
    ensures multiset(Owners(items[..k] + items[k + 1..])) == multiset(Owners(items)) - multiset{items[k].itemId}
  {
    var o := Owners(items);
    var rest := items[..k] + items[k + 1..];
    var ro := Owners(rest);
    forall i | 0 <= i < |rest|
      ensures ro[i] == (o[..k] + o[k + 1..])[i]
    {
      if i < k {
        assert rest[i] == items[i];
      } else {
        assert rest[i] == items[i + 1];
      }
    }
    assert ro == o[..k] + o[k + 1..];
    assert o == o[..k] + [o[k]] + o[k + 1..];
    assert multiset(o) == multiset(o[..k]) + multiset{o[k]} + multiset(o[k + 1..]);
  }

  /** When `id` owned a single block of a_key's record, it owns none there
      after the move, and one more in save_a_key's. */
  lemma AddrUpdatedLeavesNoBlock(t: Table, env: Env, aKey: Key, id: u64, saveKey: Key)
    requires TableOk(t) && aKey.keyType == KT_ADDR && saveKey.keyType == KT_ADDR && aKey != saveKey
    requires AddressBlocks(t, aKey).Success? && multiset(Owners(AddressBlocks(t, aKey).value))[id] == 1
    requires AddrUpdated(t, aKey, id, Some(saveKey)).result.Success?
    ensures var after := AddrUpdated(t, aKey, id, Some(saveKey)).table;
      AddressBlocks(after, aKey).Success? && id !in Owners(AddressBlocks(after, aKey).value)
    ensures var after := AddrUpdated(t, aKey, id, Some(saveKey)).table;
      AddressBlocks(after, saveKey).Success? && id in Owners(AddressBlocks(after, saveKey).value)
  {
    AddrUpdatedMoves(t, env, aKey, id, saveKey);
    var items := AddressBlocks(t, aKey).value;
    MovedOwners(items, OwnerIndex(items, id), AddressBlocks(t, saveKey).value, id);
  }

  /** Owners on both sides of a move of block k, the first owned by `id`. */
  lemma MovedOwners(items: seq<ChildAddrList>, k: nat, target: seq<ChildAddrList>, id: u64)
    requires k < |items| && items[k].itemId == id
    ensures multiset(Owners(items[..k] + items[k + 1..]))[id] == multiset(Owners(items))[id] - 1
    ensures id in Owners(target + [items[k]])
  {
    OwnersRemoved(items, k);
    assert Owners(target + [items[k]])[|target|] == id;
  }

  /** The exhibit for __update_addr as written: when a_key's record holds
      another block besides id's, it is left as it was, so the block is now
      owned by `id` in both records. */
  lemma AddrUpdatedAsWrittenLeavesBlock(t: Table, env: Env, aKey: Key, id: u64, saveKey: Key)
    requires TableOk(t) && aKey.keyType == KT_ADDR && saveKey.keyType == KT_ADDR && aKey != saveKey
    requires AddressBlocks(t, aKey).Success? && |AddressBlocks(t, aKey).value| >= 2
    requires AddrUpdatedAsWritten(t, aKey, id, Some(saveKey)).result.Success?
    ensures var after := AddrUpdatedAsWritten(t, aKey, id, Some(saveKey)).table;
      AddressBlocks(after, aKey) == AddressBlocks(t, aKey) &&
      id in Owners(AddressBlocks(t, aKey).value) &&
      AddressBlocks(after, saveKey).Success? && id in Owners(AddressBlocks(after, saveKey).value)
  {
    var items := AddressBlocks(t, aKey).value;
    var k := OwnerIndex(items, id);
    var blocks := AddressBlocks(t, saveKey).value + [items[k]];
    PutEffect(t, env, saveKey, blocks);
    var after := AddrUpdatedAsWritten(t, aKey, id, Some(saveKey)).table;
    assert after == Put(t, saveKey, blocks).table;
    assert Owners(items)[k] == id;
    var saved := AddressBlocks(after, saveKey).value;
    assert Owners(saved)[|saved| - 1] == id;
  }

  // ---------------------------------------------------------------------------
  // __get_child_id against the owners of a record
  // ---------------------------------------------------------------------------

  /** __get_child_id only ever answers with the owner of a block in the
      (dir, name hash) record. */
  lemma ChildIdIsOwner(t: Table, env: Env, dirId: u64, name: string)
    requires TableOk(t)
    requires ChildId(t, env, dirId, name).Success?
    ensures AddressBlocks(t, NameKey(env, dirId, name)).Success?
    ensures ChildId(t, env, dirId, name).value in Owners(AddressBlocks(t, NameKey(env, dirId, name)).value)
  {
    IterIdsAreOwners(t[NameKey(env, dirId, name).Dump()]);
  }

  /** When a single block sits in the (dir, name hash) record, __get_child_id
      returns its owner without loading its item record or comparing names. */
  lemma SoleCandidateIsChild(t: Table, env: Env, dirId: u64, name: string, id: u64)
    requires TableOk(t)
    requires AddressBlocks(t, NameKey(env, dirId, name)).Success?
    requires Owners(AddressBlocks(t, NameKey(env, dirId, name)).value) == [id]
    ensures ChildId(t, env, dirId, name) == Success(id)
  {
    IterIdsAreOwners(t[NameKey(env, dirId, name).Dump()]);
  }

  // ---------------------------------------------------------------------------
  // Which items own blocks, through the child-list edits
  // ---------------------------------------------------------------------------

  /** __append_addr_child changes the owners of no record, except that a
      directory without a record gets one holding its own block. */
  lemma ChildAddedOwners(t: Table, env: Env, dir: ItemMD, id: u64, k: Key)
    requires TableOk(t) && k.keyType == KT_ADDR && dir.itemId.Some?
    requires ChildAdded(t, env, dir, id).result.Success?
    ensures var after := ChildAdded(t, env, dir, id).table;
      AddressBlocks(after, k).Success? && AddressBlocks(t, k).Success? &&
      (Owners(AddressBlocks(after, k).value) == Owners(AddressBlocks(t, k).value) ||
       (!Holds(t, k) && Owners(AddressBlocks(after, k).value) == [dir.itemId.value]))
  {
    ChildAddedEffect(t, env, dir, id);
    var after := ChildAdded(t, env, dir, id).table;
    if k != DirKey(env, dir) {
      assert AddressBlocks(after, k) == AddressBlocks(t, k);
    } else if Holds(t, k) {
      var items := AddressBlocks(t, k).value;
      assert AddressBlocks(after, k) == Success(AddChildToOwner(items, dir.itemId.value, id));
    } else {
      var single := [ChildAddrList(dir.itemId.value, [id])];
      assert AddressBlocks(after, k) == Success(single);
      assert Owners(single) == [dir.itemId.value];
    }
  }

  /** __remove_addr_child changes the owners of no record. */
  lemma ChildRemovedOwners(t: Table, env: Env, dir: ItemMD, id: u64, k: Key)
    requires TableOk(t) && k.keyType == KT_ADDR && dir.itemId.Some?
    requires ChildRemoved(t, env, dir, id).result.Success?
    ensures var after := ChildRemoved(t, env, dir, id).table;
      AddressBlocks(after, k).Success? && AddressBlocks(t, k).Success? &&
      Owners(AddressBlocks(after, k).value) == Owners(AddressBlocks(t, k).value)
  {
    ChildRemovedEffect(t, env, dir, id);
    if k == DirKey(env, dir) {
      var items := AddressBlocks(t, k).value;
      RemoveFromOwnersKeepsOwners(items, dir.itemId.value, id);
      assert AddressBlocks(ChildRemoved(t, env, dir, id).table, k) == RemoveFromOwners(items, dir.itemId.value, id);
    }
  }

  /** The parent change of __update_addr_item changes the owners of no
      record, except that a new parent without a record gets one holding its
      own block. */
  lemma ReparentedOwners(t: Table, env: Env, oldParent: u64, newParent: u64, id: u64, k: Key)
    requires TableOk(t) && k.keyType == KT_ADDR
    requires Reparented(t, env, oldParent, newParent, id).result.Success?
    ensures var after := Reparented(t, env, oldParent, newParent, id).table;
      TableOk(after) && AddressBlocks(after, k).Success? && AddressBlocks(t, k).Success? &&
      (Owners(AddressBlocks(after, k).value) == Owners(AddressBlocks(t, k).value) ||
       (!Holds(t, k) && Owners(AddressBlocks(after, k).value) == [newParent]))
  {
    var oldDir := ItemMDOf(t, env, oldParent).value;
    ChildRemovedEffect(t, env, oldDir, id);
    ChildRemovedOwners(t, env, oldDir, id, k);
    var t1 := ChildRemoved(t, env, oldDir, id).table;
    var newDir := ItemMDOf(t1, env, newParent).value;
    ChildAddedEffect(t1, env, newDir, id);
    ChildAddedOwners(t1, env, newDir, id, k);
  }

  /** The parent change moves `id` from the old parent's child list to the
      new parent's, when the two directories keep their blocks in different
      records. */
  lemma ReparentedMovesChild(t: Table, env: Env, oldParent: u64, newParent: u64, id: u64)
    requires TableOk(t)
    requires Reparented(t, env, oldParent, newParent, id).result.Success?
    requires DirKey(env, ItemMDOf(t, env, oldParent).value) != DirKey(env, ItemMDOf(t, env, newParent).value)
    ensures var after := Reparented(t, env, oldParent, newParent, id).table;
      var oldKey := DirKey(env, ItemMDOf(t, env, oldParent).value);
      AddressBlocks(after, oldKey) == RemoveFromOwners(AddressBlocks(t, oldKey).value, oldParent, id)
    ensures var after := Reparented(t, env, oldParent, newParent, id).table;
      var newKey := DirKey(env, ItemMDOf(t, env, newParent).value);
      AddressBlocks(after, newKey) ==
        Success(if Holds(t, newKey) then AddChildToOwner(AddressBlocks(t, newKey).value, newParent, id)
                else [ChildAddrList(newParent, [id])])
  {
    var oldDir := ItemMDOf(t, env, oldParent).value;
    ChildRemovedEffect(t, env, oldDir, id);
    var t1 := ChildRemoved(t, env, oldDir, id).table;
    var newDir := ItemMDOf(t1, env, newParent).value;
    ChildAddedEffect(t1, env, newDir, id);
  }

  // ---------------------------------------------------------------------------
  // update: where the item's block ends up
  // ---------------------------------------------------------------------------

  /** The exhibit for __update_addr_item as written: an item moved to another
      directory under the same name is not found there afterwards, since its
      block stays in the old parent's record. */
  lemma MoveWithoutRenameAsWrittenLosesItem(t: Table, env: Env, before: ItemMD, after: ItemMD)
    requires TableOk(t) && before.itemId.Some?
    requires before.name == after.name && before.parentDirId != after.parentDirId
    requires before.itemId.value != after.parentDirId
    requires AddressBlocks(t, NameKey(env, after.parentDirId, after.name)).Success?
    requires before.itemId.value !in Owners(AddressBlocks(t, NameKey(env, after.parentDirId, after.name)).value)
    requires AddrItemUpdatedAsWritten(t, env, before, after).result.Success?
    ensures ChildId(AddrItemUpdatedAsWritten(t, env, before, after).table, env, after.parentDirId, after.name)
      != Success(before.itemId.value)
  {
    var newKey := NameKey(env, after.parentDirId, after.name);
    ReparentedOwners(t, env, before.parentDirId, after.parentDirId, before.itemId.value, newKey);
    var t2 := AddrItemUpdatedAsWritten(t, env, before, after).table;
    if ChildId(t2, env, after.parentDirId, after.name).Success? {
      ChildIdIsOwner(t2, env, after.parentDirId, after.name);
    }
  }

  /** A block moved into an empty record is that record's only block. */
  lemma MovedIntoEmptyRecord(t: Table, env: Env, aKey: Key, id: u64, saveKey: Key)
    requires TableOk(t) && aKey.keyType == KT_ADDR && saveKey.keyType == KT_ADDR && aKey != saveKey
    requires !Holds(t, saveKey)
    requires AddrUpdated(t, aKey, id, Some(saveKey)).result.Success?
    ensures var after := AddrUpdated(t, aKey, id, Some(saveKey)).table;
      TableOk(after) && AddressBlocks(after, saveKey).Success? && Owners(AddressBlocks(after, saveKey).value) == [id]
  {
    AddrUpdatedMoves(t, env, aKey, id, saveKey);
    var items := AddressBlocks(t, aKey).value;
    var moved := [items[OwnerIndex(items, id)]];
    assert AddressBlocks(t, saveKey).value + [items[OwnerIndex(items, id)]] == moved;
    assert Owners(moved) == [id];
  }

  /** With the correction, a renamed or moved item whose new (parent, name
      hash) record was empty is found there by __get_child_id. */
  lemma UpdateMovesAddressRecord(t: Table, env: Env, before: ItemMD, after: ItemMD)
    requires TableOk(t) && before.itemId.Some?
    requires NameKey(env, before.parentDirId, before.name) != NameKey(env, after.parentDirId, after.name)
    requires !Holds(t, NameKey(env, after.parentDirId, after.name))
    requires AddrItemUpdated(t, env, before, after).result.Success?
    ensures ChildId(AddrItemUpdated(t, env, before, after).table, env, after.parentDirId, after.name)
      == Success(before.itemId.value)
  {
    var id := before.itemId.value;
    var oldKey := NameKey(env, before.parentDirId, before.name);
    var newKey := NameKey(env, after.parentDirId, after.name);
    var moved := AddrUpdated(t, oldKey, id, Some(newKey));
    assert moved.result.Success?;
    MovedIntoEmptyRecord(t, env, oldKey, id, newKey);
    var t2 := AddrItemUpdated(t, env, before, after).table;
    if before.parentDirId != after.parentDirId {
      assert t2 == Reparented(moved.table, env, before.parentDirId, after.parentDirId, id).table;
      ReparentedOwners(moved.table, env, before.parentDirId, after.parentDirId, id, newKey);
    }
    SoleCandidateIsChild(t2, env, after.parentDirId, after.name, id);
  }

  // ---------------------------------------------------------------------------
  // append
  // ---------------------------------------------------------------------------

  /** Writing one item record leaves every other item record as it was. */
  lemma ItemWriteKeepsOthers(t: Table, env: Env, id: u64, other: u64, v: bytes)
    requires id != other
    ensures ItemMDOf(t[ItemKey(other).Dump() := v], env, id) == ItemMDOf(t, env, id)
  {
    KeyDumpInjective(ItemKey(id), ItemKey(other));
  }

  /** append refuses a name some sibling in the same (parent, name hash)
      record already carries, and an id that already holds a record other
      than a reservation; in both cases nothing is written. */
  lemma AppendRejectsExisting(t: Table, env: Env, md: ItemMD, dir: ItemMD, now: int)
    requires dir.itemId.Some?
    ensures NameTaken(t, env, md.parentDirId, md.name) == Success(true) ==>
      AppendedUnder(t, env, md, dir, now) == Outcome(t, Failure(AlreadyExists))
    ensures (NameTaken(t, env, md.parentDirId, md.name) == Success(false) && md.itemId.Some? &&
             ItemKey(md.itemId.value).Dump() in t && t[ItemKey(md.itemId.value).Dump()] !in {[], RESERVE_ITEM}) ==>
      AppendedUnder(t, env, md, dir, now) == Outcome(t, Failure(AlreadyExists))
  {
  }

  /** The steps of a successful append under `dir`, in order. */
  lemma AppendedUnderSteps(t: Table, env: Env, md: ItemMD, dir: ItemMD, now: int)
    requires dir.itemId.Some?
    requires AppendedUnder(t, env, md, dir, now).result.Success?
    ensures md.itemId.Some? && NameTaken(t, env, md.parentDirId, md.name) == Success(false)
    ensures var listed := ChildAdded(t, env, dir, md.itemId.value);
      var addressed := AddrUpdated(listed.table, NameKey(env, dir.itemId.value, md.name), md.itemId.value, None);
      listed.result.Success? && addressed.result.Success? &&
      AppendedUnder(t, env, md, dir, now) == RecordsWritten(addressed.table, env, md, dir, now)
  {
  }

  /** The item record, then the parent's record: no address record changes. */
  lemma RecordsWrittenEffect(t: Table, env: Env, md: ItemMD, dir: ItemMD, now: int)
    requires EnvOk(env) && md.itemId.Some? && dir.itemId.Some?
    requires RecordsWritten(t, env, md, dir, now).result.Success?
    ensures var after := RecordsWritten(t, env, md, dir, now).table;
      RecordsWritten(t, env, md, dir, now).result.value == md &&
      (TableOk(t) ==> TableOk(after)) &&
      (forall k: Key :: k.keyType == KT_ADDR ==> AddressBlocks(after, k) == AddressBlocks(t, k))
    ensures md.itemId.value != dir.itemId.value ==>
      ItemMDOf(RecordsWritten(t, env, md, dir, now).table, env, md.itemId.value) == Success(md)
    ensures dir.itemId.value != ROOT_ID ==>
      ItemMDOf(RecordsWritten(t, env, md, dir, now).table, env, dir.itemId.value) == Success(dir.(modified := now))
  {
    var id := md.itemId.value;
    var dirId := dir.itemId.value;
    var rec := PadMD(env, md).value;
    var t1 := t[ItemKey(id).Dump() := rec];
    PutItemKeepsRecords(t, id, rec);
    ItemRecordReadBack(t, env, id, md);
    if dirId != ROOT_ID {
      var touched := dir.(modified := now);
      var drec := PadMD(env, touched).value;
      PutItemKeepsRecords(t1, dirId, drec);
      ItemRecordReadBack(t1, env, dirId, touched);
      if id != dirId {
        ItemWriteKeepsOthers(t1, env, id, dirId, drec);
      }
    }
  }

  /** A successful append under `dir`: the name was free; `id` ends the
      directory's first block (or starts its record); an empty block for
      `id` ends the (dir, name hash) record; the item record loads back as
      `md`; and a directory other than the root gets the new modification
      time. */
  lemma AppendedUnderEffect(t: Table, env: Env, md: ItemMD, dir: ItemMD, now: int)
    requires TableOk(t) && EnvOk(env) && dir.itemId.Some?
    requires DirKey(env, dir) != NameKey(env, dir.itemId.value, md.name)
    requires AppendedUnder(t, env, md, dir, now).result.Success?
    ensures md.itemId.Some? && NameTaken(t, env, md.parentDirId, md.name) == Success(false)
    ensures AppendedUnder(t, env, md, dir, now).result.value == md
    ensures var after := AppendedUnder(t, env, md, dir, now).table;
      var nk := NameKey(env, dir.itemId.value, md.name);
      TableOk(after) &&
      AddressBlocks(after, nk) == Success(AddressBlocks(t, nk).value + [ChildAddrList(md.itemId.value, [])])
    ensures var after := AppendedUnder(t, env, md, dir, now).table;
      var dk := DirKey(env, dir);
      Holds(t, dk) ==>
        AddressBlocks(after, dk) == Success(AddChildToOwner(AddressBlocks(t, dk).value, dir.itemId.value, md.itemId.value))
    ensures var after := AppendedUnder(t, env, md, dir, now).table;
      var dk := DirKey(env, dir);
      !Holds(t, dk) ==>
        AddressBlocks(after, dk) == Success([ChildAddrList(dir.itemId.value, [md.itemId.value])])
    ensures md.itemId.value != dir.itemId.value ==>
      ItemMDOf(AppendedUnder(t, env, md, dir, now).table, env, md.itemId.value) == Success(md)
    ensures dir.itemId.value != ROOT_ID ==>
      ItemMDOf(AppendedUnder(t, env, md, dir, now).table, env, dir.itemId.value) == Success(dir.(modified := now))
  {
    AppendedUnderSteps(t, env, md, dir, now);
    var id := md.itemId.value;
    var dk := DirKey(env, dir);
    var nk := NameKey(env, dir.itemId.value, md.name);
    ChildAddedEffect(t, env, dir, id);
    var t1 := ChildAdded(t, env, dir, id).table;
    AddrUpdatedAppendsBlock(t1, env, nk, id);
    var t2 := AddrUpdated(t1, nk, id, None).table;
    assert AddressBlocks(t2, dk) == AddressBlocks(t1, dk);
    RecordsWrittenEffect(t2, env, md, dir, now);
  }

  /** append("", md) with item id 0 writes the root's item record and
      nothing else. */
  lemma AppendedRoot(t: Table, env: Env, last: nat, maxId: nat, md: ItemMD, itemIdArg: Option<u64>, now: int)
    requires EnvOk(env) && 2 <= maxId <= U64_LIMIT && md.itemId == Some(ROOT_ID)
    requires Appended(t, env, last, maxId, "", md, itemIdArg, now).1.result.Success?
    ensures var (counter, outcome) := Appended(t, env, last, maxId, "", md, itemIdArg, now);
      counter == last && outcome.result == Success(md) &&
      ItemMDOf(outcome.table, env, ROOT_ID) == Success(md) &&
      forall k: Key :: k.keyType == KT_ADDR ==> AddressBlocks(outcome.table, k) == AddressBlocks(t, k)
  {
    ItemRecordReadBack(t, env, ROOT_ID, md);
    PutItemKeepsRecords(t, ROOT_ID, PadMD(env, md).value);
  }

  /** append(path, md) without an item id takes the id the probe loop finds,
      which had no item record, and files the item under the directory the
      path names. */
  lemma AppendedTakesFreeId(t: Table, env: Env, last: nat, maxId: nat, path: string, md: ItemMD, now: int)
    requires 2 <= maxId <= U64_LIMIT && path != ""
    requires Appended(t, env, last, maxId, path, md, None, now).1.result.Success?
    ensures var (counter, outcome) := Appended(t, env, last, maxId, path, md, None, now);
      var found := FreeIdSearch(t, last, last, maxId - 1, maxId);
      counter == found.0 && found.1.Success? &&
      1 <= found.1.value as nat < maxId && ItemKey(found.1.value).Dump() !in t &&
      Resolve(t, env, path).Success?
  {
  }

  // ---------------------------------------------------------------------------
  // remove
  // ---------------------------------------------------------------------------

  /** remove refuses an item whose name no sibling record carries, and a
      directory whose own block still lists children; nothing is written. */
  lemma RemoveRejects(t: Table, env: Env, md: ItemMD)
    requires md.itemId.Some?
    ensures NameTaken(t, env, md.parentDirId, md.name) == Success(false) ==>
      Removed(t, env, md) == Outcome(t, Failure(NoMetadata))
    ensures (NameTaken(t, env, md.parentDirId, md.name) == Success(true) && !md.isFile &&
             EmptyDirCheck(t, NameKey(env, md.parentDirId, md.name), md.itemId.value) == Failure(NotEmpty)) ==>
      Removed(t, env, md) == Outcome(t, Failure(NotEmpty))
  {
  }

  /** The table a successful remove leaves: the parent's blocks without
      `id`, less the (parent, name hash) record and the item record. */
  lemma RemovedTable(t: Table, env: Env, md: ItemMD)
    requires Removed(t, env, md).result.Success?
    ensures md.itemId.Some? && ItemMDOf(t, env, md.parentDirId).Success?
    ensures Removed(t, env, md).table ==
      ChildRemoved(t, env, ItemMDOf(t, env, md.parentDirId).value, md.itemId.value).table
        - {NameKey(env, md.parentDirId, md.name).Dump(), ItemKey(md.itemId.value).Dump()}
  {
  }

  /** A successful remove: the item existed and a directory had no
      children; then the whole (parent, name hash) record and the item
      record are gone. */
  lemma RemovedEffect(t: Table, env: Env, md: ItemMD)
    requires TableOk(t)
    requires Removed(t, env, md).result.Success?
    ensures md.itemId.Some? && NameTaken(t, env, md.parentDirId, md.name) == Success(true)
    ensures !md.isFile ==> EmptyDirCheck(t, NameKey(env, md.parentDirId, md.name), md.itemId.value) == Success(())
    ensures var after := Removed(t, env, md).table;
      TableOk(after) &&
      NameKey(env, md.parentDirId, md.name).Dump() !in after &&
      ItemMDOf(after, env, md.itemId.value) == Failure(NotFound)
  {
    RemovedTable(t, env, md);
    ChildRemovedEffect(t, env, ItemMDOf(t, env, md.parentDirId).value, md.itemId.value);
  }

  /** Before deleting anything, remove takes `id` out of the parent's blocks. */
  lemma RemovedUnlists(t: Table, env: Env, md: ItemMD)
    requires TableOk(t)
    requires md.itemId.Some? && ItemMDOf(t, env, md.parentDirId).Success?
    requires DirKey(env, ItemMDOf(t, env, md.parentDirId).value) != NameKey(env, md.parentDirId, md.name)
    requires Removed(t, env, md).result.Success?
    ensures var dk := DirKey(env, ItemMDOf(t, env, md.parentDirId).value);
      AddressBlocks(Removed(t, env, md).table, dk) ==
        RemoveFromOwners(AddressBlocks(t, dk).value, md.parentDirId, md.itemId.value)
  {
    var dir := ItemMDOf(t, env, md.parentDirId).value;
    var id := md.itemId.value;
    ChildRemovedEffect(t, env, dir, id);
    var t1 := ChildRemoved(t, env, dir, id).table;
    var aKey := NameKey(env, md.parentDirId, md.name);
    var dk := DirKey(env, dir);
    RemovedTable(t, env, md);
    KeyDumpInjective(dk, aKey);
    OtherDeletesKeepRecord(t1, dk, aKey.Dump(), ItemKey(id).Dump());
  }

  /** Deleting other keys leaves a record as it was. */
  lemma OtherDeletesKeepRecord(t: Table, k: Key, a: bytes, b: bytes)
    requires k.keyType == KT_ADDR && k.Dump() != a && |b| == KEY_LEN && b[KEY_LEN - 1] == KT_ITEM
    ensures AddressBlocks(t - {a, b}, k) == AddressBlocks(t, k)
  {
  }

  /** Deleting the whole (parent, name hash) record drops every other item
      filed there under a colliding name: __get_child_id no longer finds any
      of them. */
  lemma RemoveDropsCollidingSibling(t: Table, env: Env, md: ItemMD, other: string)
    requires Removed(t, env, md).result.Success?
    requires env.hash(other) == env.hash(md.name)
    ensures ChildId(Removed(t, env, md).table, env, md.parentDirId, other) == Failure(PathNotFound)
  {
    RemovedTable(t, env, md);
  }

  // ---------------------------------------------------------------------------
  // update
  // ---------------------------------------------------------------------------

  /** A successful update stores the metadata it returns, which for a
      directory carries the new modification time, under the item's id. */
  lemma UpdatedStoresRecord(t: Table, env: Env, md: ItemMD, now: int)
    requires EnvOk(env)
    requires Updated(t, env, md, now).result.Success?
    ensures md.itemId.Some?
    ensures md.isFile ==> Updated(t, env, md, now).result.value == md
    ensures !md.isFile ==> Updated(t, env, md, now).result.value == md.(modified := now)
    ensures ItemMDOf(Updated(t, env, md, now).table, env, md.itemId.value) == Success(Updated(t, env, md, now).result.value)
  {
    var stored := ItemMDOf(t, env, md.itemId.value).value;
    var moved := AddrItemUpdated(t, env, stored, md);
    var md' := if md.isFile then md else md.(modified := now);
    ItemRecordReadBack(moved.table, env, md.itemId.value, md');
  }

  // ---------------------------------------------------------------------------
  // find
  // ---------------------------------------------------------------------------

  /** Walking a + b walks a, then walks b from where a ended; a failure in a
      stops the walk. */
  lemma {:induction false} WalkAppend(t: Table, env: Env, cur: u64, a: seq<string>, b: seq<string>)
    ensures Walk(t, env, cur, a + b) ==
      (var w := Walk(t, env, cur, a); if w.Failure? then w else Walk(t, env, w.value, b))
    decreases a
  {
    if a == [] {
      assert a + b == b;
    } else {
      assert (a + b)[0] == a[0];
      assert (a + b)[1..] == a[1..] + b;
      if a[0] == "" || a[0] == ROOT_NAME {
        WalkAppend(t, env, cur, a[1..], b);
      } else {
        var c := ChildId(t, env, cur, a[0]);
        if c.Success? {
          WalkAppend(t, env, c.value, a[1..], b);
        }
      }
    }
  }

  /** "" and "/" both name the root directory. */
  lemma ResolveRoot(t: Table, env: Env)
    ensures Resolve(t, env, "") == ItemMDOf(t, env, ROOT_ID)
    ensures Resolve(t, env, [SEP]) == ItemMDOf(t, env, ROOT_ID)
  {
    SplitPiece("");
    assert [""][1..] == [];
    SplitPrependSep("");
    assert [SEP] + "" == [SEP];
  }

  /** A leading '/' changes nothing: paths are resolved from the root either way. */
  lemma ResolveLeadingSeparator(t: Table, env: Env, path: string)
    ensures Resolve(t, env, [SEP] + path) == Resolve(t, env, path)
  {
    SplitPrependSep(path);
    assert ([""] + Split(path))[1..] == Split(path);
  }

  /** A trailing '/' changes nothing either. */
  lemma ResolveTrailingSeparator(t: Table, env: Env, path: string)
    ensures Resolve(t, env, path + [SEP]) == Resolve(t, env, path)
  {
    SplitAround(path, "");
    assert path + [SEP] + "" == path + [SEP];
    SplitPiece("");
    WalkAppend(t, env, ROOT_ID, Split(path), [""]);
  }

  /** Resolving dir/name looks the name up among the children of whatever
      dir resolves to, by __get_child_id. */
  lemma ResolveChild(t: Table, env: Env, path: string, name: string)
    requires SEP !in name && name != ""
    ensures Walk(t, env, ROOT_ID, Split(path)).Failure? ==>
      Resolve(t, env, path + [SEP] + name) == Failure(Walk(t, env, ROOT_ID, Split(path)).error)
    ensures Walk(t, env, ROOT_ID, Split(path)).Success? ==>
      Resolve(t, env, path + [SEP] + name) ==
        (var c :- ChildId(t, env, Walk(t, env, ROOT_ID, Split(path)).value, name); ItemMDOf(t, env, c))
  {
    SplitAround(path, name);
    SplitPiece(name);
    assert name != ROOT_NAME by { assert ROOT_NAME[0] == SEP; }
    WalkAppend(t, env, ROOT_ID, Split(path), [name]);
    var w := Walk(t, env, ROOT_ID, Split(path));
    if w.Success? {
      var c := ChildId(t, env, w.value, name);
      if c.Success? {
        assert [name][1..] == [];
      }
    }
  }
}
