/** class MetadataFile of nimbus_client/core/metadata_file.py: the metadata
    table and the item id counter, changed in place by each operation.  Every
    method is proved to leave exactly the table (and counter) that the
    matching function of module Store describes, and to keep the table
    invariant. */
module MetadataFiles {
  import opened Wrappers
  import opened Exceptions
  import opened Bytes
  import opened Records
  import opened Paths
  import opened Store

  /** The root directory that __init_from_journal appends to an empty table. */
  function RootMD(now: int): ItemMD
  {
    ItemMD(Some(ROOT_ID), ROOT_ID, ROOT_NAME, false, now, [])
  }

  class MetadataFile {
    var db: Table
    var lastItemId: nat
    const env: Env
    /** MAX_ITEM_ID */
    const maxItemId: nat

    ghost predicate Valid()
      reads this
    {
      TableOk(db) && 2 <= maxItemId <= U64_LIMIT
    }

    /** A fresh store without a journal: only the root directory's record. */
    constructor(env: Env, maxItemId: nat, now: int)
      requires 2 <= maxItemId <= U64_LIMIT
      requires PadMD(env, RootMD(now)).Success?
      ensures Valid() && this.env == env && this.maxItemId == maxItemId && lastItemId == 0
      ensures db == map[ItemKey(ROOT_ID).Dump() := PadMD(env, RootMD(now)).value]
    {
      this.env := env;
      this.maxItemId := maxItemId;
      lastItemId := 0;
      db := map[ItemKey(ROOT_ID).Dump() := PadMD(env, RootMD(now)).value];
      PutItemKeepsRecords(map[], ROOT_ID, PadMD(env, RootMD(now)).value);
    }

    // -------------------------------------------------------------------------
    // Reads
    // -------------------------------------------------------------------------

    /** `addr_items = AddressItems.from_dump(raw) if raw else AddressItems()` */
    method LoadBlocks(k: Key) returns (r: Result<seq<ChildAddrList>, Error>)
      ensures r == AddressBlocks(db, k)
    {
      if k.Dump() in db && db[k.Dump()] != [] {
        r := ItemsFromDump(db[k.Dump()]);
      } else {
        r := Success([]);
      }
    }

    /** LoadBlocks on an address key of a valid table, where decoding cannot fail. */
    method ReadBlocks(k: Key) returns (items: seq<ChildAddrList>)
      requires Valid() && k.keyType == KT_ADDR
      ensures AddressBlocks(db, k) == Success(items)
      ensures |items| > 0 <==> Holds(db, k)
    {
      if k.Dump() in db && db[k.Dump()] != [] {
        var parsed := ItemsFromDump(db[k.Dump()]);
        if parsed.Failure? {
          assert false;
        }
        items := parsed.value;
      } else {
        items := [];
      }
    }

    /** The loop of __get_child_id (and of __exists) over candidate ids. */
    method FirstWithName(ids: seq<u64>, name: string) returns (r: Result<Option<u64>, Error>)
      ensures r == FirstNamed(db, env, ids, name)
    {
      for i := 0 to |ids|
        invariant FirstNamed(db, env, ids, name) == FirstNamed(db, env, ids[i..], name)
      {
        assert ids[i..][1..] == ids[i + 1..];
        var md := ItemMDOf(db, env, ids[i]);
        if md.Failure? {
          return Failure(md.error);
        }
        if md.value.name == name {
          return Success(Some(ids[i]));
        }
      }
      return Success(None);
    }

    /** __get_child_id(dir_id, name) */
    method GetChildId(dirId: u64, name: string) returns (r: Result<u64, Error>)
      ensures r == ChildId(db, env, dirId, name)
    {
      var k := NameKey(env, dirId, name);
      if !(k.Dump() in db && db[k.Dump()] != []) {
        return Failure(PathNotFound);
      }
      var ids :- ItemIds(db[k.Dump()]);
      if |ids| == 0 {
        return Failure(PathNotFound);
      }
      if |ids| > 1 {
        var found :- FirstWithName(ids, name);
        if found.None? {
          return Failure(PathNotFound);
        }
        return Success(found.value);
      }
      return Success(ids[0]);
    }

    /** __exists(md) */
    method Exists(md: ItemMD) returns (r: Result<bool, Error>)
      ensures r == NameTaken(db, env, md.parentDirId, md.name)
    {
      var k := NameKey(env, md.parentDirId, md.name);
      if !(k.Dump() in db && db[k.Dump()] != []) {
        return Success(false);
      }
      var ids :- ItemIds(db[k.Dump()]);
      var found :- FirstWithName(ids, md.name);
      return Success(found.Some?);
    }

    /** find(path) */
    method Find(path: string) returns (r: Result<ItemMD, Error>)
      ensures r == Resolve(db, env, path)
    {
      var items := Split(path);
      var cur := ROOT_ID;
      for i := 0 to |items|
        invariant Walk(db, env, ROOT_ID, items) == Walk(db, env, cur, items[i..])
      {
        assert items[i..][1..] == items[i + 1..];
        var name := items[i];
        if name == "" || name == ROOT_NAME {
          continue;
        }
        var next :- GetChildId(cur, name);
        cur := next;
      }
      return ItemMDOf(db, env, cur);
    }

    /** The inner loop of listdir: the item records of `ids`, in order. */
    method LoadItemMDs(ids: seq<u64>) returns (r: Result<seq<ItemMD>, Error>)
      ensures r == ItemMDs(db, env, ids)
    {
      var ret: seq<ItemMD> := [];
      PrefixedEmpty(ItemMDs(db, env, ids));
      for j := 0 to |ids|
        invariant ItemMDs(db, env, ids) == Prefixed(ret, ItemMDs(db, env, ids[j..]))
      {
        ItemMDsAt(db, env, ids, j);
        var md :- ItemMDOf(db, env, ids[j]);
        PrefixedAssoc(ret, [md], ItemMDs(db, env, ids[j + 1..]));
        ret := ret + [md];
      }
      assert ids[|ids|..] == [] && ret + [] == ret;
      return Success(ret);
    }

    /** listdir(path): the item records of the children listed in the
        directory's own blocks. */
    method ListDir(path: string) returns (r: Result<seq<ItemMD>, Error>)
      ensures r == Listing(db, env, path)
    {
      var dir :- Find(path);
      var items :- LoadBlocks(DirKey(env, dir));
      var owner := dir.itemId.value;
      var ret: seq<ItemMD> := [];
      PrefixedEmpty(ItemMDs(db, env, OwnedChildren(items, owner)));
      for i := 0 to |items|
        invariant ItemMDs(db, env, OwnedChildren(items, owner)) == Prefixed(ret, ItemMDs(db, env, OwnedChildren(items[i..], owner)))
      {
        assert items[i..][1..] == items[i + 1..];
        var tail := OwnedChildren(items[i + 1..], owner);
        if items[i].itemId == owner {
          ItemMDsAppend(db, env, items[i].childIds, tail);
          var mds :- LoadItemMDs(items[i].childIds);
          PrefixedAssoc(ret, mds, ItemMDs(db, env, tail));
          ret := ret + mds;
        } else {
          assert OwnedChildren(items[i..], owner) == tail;
        }
      }
      assert OwnedChildren(items[|items|..], owner) == [] && ret + [] == ret;
      return Success(ret);
    }

    // -------------------------------------------------------------------------
    // Id allocation
    // -------------------------------------------------------------------------

    /** __register_item_by_id(id, check_only): whether id is free, reserving
        it unless check_only is set. */
    method RegisterItemById(id: u64, checkOnly: bool) returns (free: bool)
      modifies this
      requires Valid()
      ensures Valid() && lastItemId == old(lastItemId)
      ensures free <==> ItemKey(id).Dump() !in old(db)
      ensures db == if free && !checkOnly then Reserved(old(db), id) else old(db)
    {
      var k := ItemKey(id).Dump();
      if k !in db {
        if !checkOnly {
          PutItemKeepsRecords(db, id, RESERVE_ITEM);
          db := db[k := RESERVE_ITEM];
        }
        return true;
      }
      return false;
    }

    /** __get_next_item_id(with_reserve), stopping after one full round of
        the counter (see FreeIdSearchAsWritten for the loop as written). */
    method GetNextItemId(withReserve: bool) returns (r: Result<u64, Error>)
      modifies this
      requires Valid()
      ensures Valid()
      ensures (lastItemId, r) == FreeIdSearch(old(db), old(lastItemId), old(lastItemId), maxItemId - 1, maxItemId)
      ensures db == if withReserve && r.Success? then Reserved(old(db), r.value) else old(db)
    {
      var start := lastItemId;
      var budget: nat := maxItemId - 1;
      while true
        invariant Valid() && db == old(db)
        invariant FreeIdSearch(db, start, start, maxItemId - 1, maxItemId) == FreeIdSearch(db, start, lastItemId, budget, maxItemId)
        decreases budget
      {
        if budget == 0 {
          return Failure(NoFreeIdentificator);
        }
        FreeIdSearchStep(db, start, lastItemId, budget, maxItemId);
        lastItemId := NextCounter(lastItemId, maxItemId);
        budget := budget - 1;
        if start == lastItemId {
          return Failure(NoFreeIdentificator);
        }
        var free := RegisterItemById(lastItemId, !withReserve);
        if free {
          return Success(lastItemId);
        }
      }
    }

    /** generate_item_id() */
    method GenerateItemId() returns (r: Result<u64, Error>)
      modifies this
      requires Valid()
      ensures Valid()
      ensures (lastItemId, r) == FreeIdSearch(old(db), old(lastItemId), old(lastItemId), maxItemId - 1, maxItemId)
      ensures db == if r.Success? then Reserved(old(db), r.value) else old(db)
    {
      r := GetNextItemId(true);
    }

    /** cancel_item_id_reserve(id) */
    method CancelItemIdReserve(id: u64)
      modifies this
      requires Valid()
      ensures Valid() && lastItemId == old(lastItemId)
      ensures db == Cancelled(old(db), id)
    {
      var k := ItemKey(id).Dump();
      if k in db && db[k] == RESERVE_ITEM {
        db := db - {k};
      }
    }

    // -------------------------------------------------------------------------
    // Writes
    // -------------------------------------------------------------------------

    /** __set_raw_value(k, addr_items.dump()) */
    method WriteBlocks(k: Key, items: seq<ChildAddrList>) returns (r: Result<(), Error>)
      modifies this
      requires Valid() && k.keyType == KT_ADDR && |items| > 0
      ensures Valid() && lastItemId == old(lastItemId)
      ensures Outcome(db, r) == Put(old(db), k, items)
    {
      var dumped :- DumpItems(items);
      PutBlocksKeepsTableOk(db, k, items);
      db := db[k.Dump() := dumped];
      return Success(());
    }

    /** __append_addr_child(dir, id) */
    method AppendAddrChild(dir: ItemMD, id: u64) returns (r: Result<(), Error>)
      modifies this
      requires Valid() && dir.itemId.Some?
      ensures Valid() && lastItemId == old(lastItemId)
      ensures Outcome(db, r) == ChildAdded(old(db), env, dir, id)
    {
      var k := DirKey(env, dir);
      var owner := dir.itemId.value;
      var items: seq<ChildAddrList>;
      if k.Dump() in db && db[k.Dump()] != [] {
        var parsed := ReadBlocks(k);
        items := AppendToOwner(parsed, owner, id);
      } else {
        items := [ChildAddrList(owner, [id])];
      }
      r := WriteBlocks(k, items);
    }

    /** __remove_addr_child(dir, id) */
    method RemoveAddrChild(dir: ItemMD, id: u64) returns (r: Result<(), Error>)
      modifies this
      requires Valid() && dir.itemId.Some?
      ensures Valid() && lastItemId == old(lastItemId)
      ensures Outcome(db, r) == ChildRemoved(old(db), env, dir, id)
    {
      var k := DirKey(env, dir);
      if !(k.Dump() in db && db[k.Dump()] != []) {
        return Failure(NoAddressRecord);
      }
      var parsed := ReadBlocks(k);
      var items :- RemoveFromEachOwner(parsed, dir.itemId.value, id);
      r := WriteBlocks(k, items);
    }

    /** __update_addr(a_key, id, save_a_key), with the shortened record
        written back (AddrUpdated). */
    method UpdateAddr(aKey: Key, id: u64, saveKey: Option<Key>) returns (r: Result<(), Error>)
      modifies this
      requires Valid() && aKey.keyType == KT_ADDR
      requires saveKey.Some? ==> saveKey.value.keyType == KT_ADDR
      ensures Valid() && lastItemId == old(lastItemId)
      ensures Outcome(db, r) == AddrUpdated(old(db), aKey, id, saveKey)
    {
      var items := ReadBlocks(aKey);
      if saveKey.None? {
        r := WriteBlocks(aKey, items + [ChildAddrList(id, [])]);
        return;
      }
      var removed :- RemoveItem(items, id);
      var (rest, moved) := removed;
      if rest == [] {
        db := db - {aKey.Dump()};
      } else {
        var written :- WriteBlocks(aKey, rest);
      }
      var target := ReadBlocks(saveKey.value);
      r := WriteBlocks(saveKey.value, target + [moved]);
    }

    /** __update_addr_item(old_md, new_md), moving the item's block on a
        rename or a change of parent (AddrItemUpdated). */
    method UpdateAddrItem(before: ItemMD, after: ItemMD) returns (r: Result<(), Error>)
      modifies this
      requires Valid() && before.itemId.Some?
      ensures Valid() && lastItemId == old(lastItemId)
      ensures Outcome(db, r) == AddrItemUpdated(old(db), env, before, after)
    {
      var id := before.itemId.value;
      if before.name != after.name || before.parentDirId != after.parentDirId {
        var oldKey := NameKey(env, before.parentDirId, before.name);
        var newKey := NameKey(env, after.parentDirId, after.name);
        var moved :- UpdateAddr(oldKey, id, Some(newKey));
      }
      if before.parentDirId != after.parentDirId {
        var oldDir :- ItemMDOf(db, env, before.parentDirId);
        var removed :- RemoveAddrChild(oldDir, id);
        var newDir :- ItemMDOf(db, env, after.parentDirId);
        r := AppendAddrChild(newDir, id);
        return;
      }
      return Success(());
    }

    /** __set_raw_value(Key(KT_ITEM, id), __do_item_raw_padding(md)) */
    method WriteItem(id: u64, md: ItemMD) returns (r: Result<(), Error>)
      modifies this
      requires Valid()
      ensures Valid() && lastItemId == old(lastItemId)
      ensures r.Success? <==> PadMD(env, md).Success?
      ensures r.Success? ==> db == old(db)[ItemKey(id).Dump() := PadMD(env, md).value]
      ensures r.Failure? ==> db == old(db) && r.error == PadMD(env, md).error
    {
      var rec :- PadMD(env, md);
      PutItemKeepsRecords(db, id, rec);
      db := db[ItemKey(id).Dump() := rec];
      return Success(());
    }

    /** append(path, md, item_id): the metadata as stored. */
    method Append(path: string, md: ItemMD, itemIdArg: Option<u64>, now: int) returns (r: Result<ItemMD, Error>)
      modifies this
      requires Valid()
      ensures Valid()
      ensures (lastItemId, Outcome(db, r)) == Appended(old(db), env, old(lastItemId), maxItemId, path, md, itemIdArg, now)
    {
      var item := md;
      var dir: ItemMD;
      if path != "" {
        var id: u64;
        if itemIdArg.None? || itemIdArg == Some(0) {
          id :- GetNextItemId(false);
        } else {
          id := itemIdArg.value;
        }
        dir :- Find(path);
        item := md.(itemId := Some(id), parentDirId := dir.itemId.value);
      } else {
        if md.itemId == Some(ROOT_ID) {
          var written :- WriteItem(ROOT_ID, md);
          return Success(md);
        }
        dir :- ItemMDOf(db, env, md.parentDirId);
      }
      r := AppendUnder(item, dir, now);
    }

    /** append after the directory is known: the checks, then the writes. */
    method AppendUnder(md: ItemMD, dir: ItemMD, now: int) returns (r: Result<ItemMD, Error>)
      modifies this
      requires Valid() && dir.itemId.Some?
      ensures Valid() && lastItemId == old(lastItemId)
      ensures Outcome(db, r) == AppendedUnder(old(db), env, md, dir, now)
    {
      var taken :- Exists(md);
      if taken {
        return Failure(AlreadyExists);
      }
      if md.itemId.None? {
        return Failure(StructError);
      }
      var id := md.itemId.value;
      var iKey := ItemKey(id).Dump();
      if iKey in db && db[iKey] != [] && db[iKey] != RESERVE_ITEM {
        return Failure(AlreadyExists);
      }
      var listed :- AppendAddrChild(dir, id);
      var addressed :- UpdateAddr(NameKey(env, dir.itemId.value, md.name), id, None);
      var written :- WriteItem(id, md);
      if dir.itemId.value != ROOT_ID {
        var touched :- WriteItem(dir.itemId.value, dir.(modified := now));
      }
      return Success(md);
    }

    /** update(md): the metadata as stored. */
    method Update(md: ItemMD, now: int) returns (r: Result<ItemMD, Error>)
      modifies this
      requires Valid()
      ensures Valid() && lastItemId == old(lastItemId)
      ensures Outcome(db, r) == Updated(old(db), env, md, now)
    {
      if md.itemId.None? {
        return Failure(MissingItemId);
      }
      var stored :- ItemMDOf(db, env, md.itemId.value);
      var moved :- UpdateAddrItem(stored, md);
      var item := if md.isFile then md else md.(modified := now);
      var written :- WriteItem(md.itemId.value, item);
      return Success(item);
    }

    /** remove(md) */
    method Remove(md: ItemMD) returns (r: Result<(), Error>)
      modifies this
      requires Valid()
      ensures Valid() && lastItemId == old(lastItemId)
      ensures Outcome(db, r) == Removed(old(db), env, md)
    {
      if md.itemId.None? {
        return Failure(MissingItemId);
      }
      var taken :- Exists(md);
      if !taken {
        return Failure(NoMetadata);
      }
      var id := md.itemId.value;
      var aKey := NameKey(env, md.parentDirId, md.name);
      if !md.isFile {
        var empty :- CheckEmptyDir(aKey, id);
      }
      var dir :- ItemMDOf(db, env, md.parentDirId);
      var unlisted :- RemoveAddrChild(dir, id);
      r := DeleteKeys(aKey.Dump(), ItemKey(id).Dump());
    }

    /** remove's loop over a directory's record: its own block must be empty. */
    method CheckEmptyDir(aKey: Key, id: u64) returns (r: Result<(), Error>)
      ensures r == EmptyDirCheck(db, aKey, id)
    {
      var items :- LoadBlocks(aKey);
      for i := 0 to |items|
        invariant forall j :: 0 <= j < i ==> items[j].itemId != id
      {
        if items[i].itemId == id {
          OwnerIndexIs(items, id, i);
          if |items[i].childIds| > 0 {
            return Failure(NotEmpty);
          }
          return Success(());
        }
      }
      OwnerIndexIs(items, id, |items|);
      return Success(());
    }

    /** `self.__remove_key(a_key); self.__remove_key(i_key)` */
    method DeleteKeys(k1: bytes, k2: bytes) returns (r: Result<(), Error>)
      modifies this
      requires Valid()
      ensures Valid() && lastItemId == old(lastItemId)
      ensures Outcome(db, r) == KeysDeleted(old(db), k1, k2)
    {
      if k1 !in db {
        return Failure(KeyError);
      }
      db := db - {k1};
      if k2 !in db {
        return Failure(KeyError);
      }
      db := db - {k2};
      return Success(());
    }
  }

  /** The loop of __append_addr_child over the parsed blocks: the first
      block owned by `owner` gets `id` appended. */
  method AppendToOwner(items: seq<ChildAddrList>, owner: u64, id: u64) returns (r: seq<ChildAddrList>)
    ensures r == AddChildToOwner(items, owner, id)
  {
    r := items;
    for i := 0 to |items|
      invariant forall j :: 0 <= j < i ==> items[j].itemId != owner
    {
      if items[i].itemId == owner {
        OwnerIndexIs(items, owner, i);
        r := r[i := r[i].AppendAddr(id)];
        return;
      }
    }
    OwnerIndexIs(items, owner, |items|);
  }

  /** The loop of __remove_addr_child: `id` leaves every block owned by
      `owner`; the first such block without it raises. */
  method RemoveFromEachOwner(items: seq<ChildAddrList>, owner: u64, id: u64) returns (r: Result<seq<ChildAddrList>, Error>)
    ensures r == RemoveFromOwners(items, owner, id)
  {
    var cur := items;
    for i := 0 to |items|
      invariant |cur| == |items|
      invariant forall j :: 0 <= j < i && items[j].itemId == owner ==> id in items[j].childIds
      invariant forall j :: 0 <= j < i ==>
        cur[j] == (if items[j].itemId == owner then items[j].Remove(id).value else items[j])
      invariant forall j :: i <= j < |items| ==> cur[j] == items[j]
    {
      if cur[i].itemId == owner {
        var shorter := cur[i].Remove(id);
        if shorter.Failure? {
          return Failure(shorter.error);
        }
        cur := cur[i := shorter.value];
      }
    }
    var spec := RemoveFromOwners(items, owner, id);
    assert spec.Success?;
    assert cur == spec.value;
    return Success(cur);
  }
}
