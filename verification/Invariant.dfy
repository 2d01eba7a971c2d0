/** The namespace invariant behind listdir in
    nimbus_client/core/metadata_file.py: every item id that a block of an
    address record lists has an item record that loads.  append and update
    keep it; remove keeps it when the item was listed once, in its parent's
    block; an append that raises after __append_addr_child leaves a listed
    child with no record. */
module ChildrenInvariant {
  import opened Wrappers
  import opened Exceptions
  import opened Bytes
  import opened Records
  import opened Store
  import opened StoreProperties

  /** Every child id the blocks list, block after block. */
  function AllChildren(items: seq<ChildAddrList>): seq<u64>
  {
    if items == [] then [] else items[0].childIds + AllChildren(items[1..])
  }

  /** Every listed child outside `pending` loads; the invariant itself is
      the case with nothing pending, the states inside an operation have the
      ids it has listed but not yet recorded. */
  ghost predicate LoadsBut(t: Table, env: Env, pending: set<u64>)
  {
    forall k: Key, c: u64 ::
      k.keyType == KT_ADDR && AddressBlocks(t, k).Success? &&
      c in AllChildren(AddressBlocks(t, k).value) && c !in pending ==>
        ItemMDOf(t, env, c).Success?
  }

  ghost predicate ChildrenLoad(t: Table, env: Env)
  {
    LoadsBut(t, env, {})
  }

  /** `id` is listed exactly once in the whole table: in a block of `owner`
      in the record at `dk`. */
  ghost predicate ListedOnceUnder(t: Table, id: u64, dk: Key, owner: u64)
  {
    AddressBlocks(t, dk).Success? &&
    multiset(AllChildren(AddressBlocks(t, dk).value))[id] == 1 &&
    id in OwnedChildren(AddressBlocks(t, dk).value, owner) &&
    forall k: Key :: k.keyType == KT_ADDR && k != dk && AddressBlocks(t, k).Success? ==>
      id !in AllChildren(AddressBlocks(t, k).value)
  }

  /** The directory's record, when there is one, holds the directory's own block. */
  ghost predicate OwnsBlock(t: Table, env: Env, dir: ItemMD)
  {
    dir.itemId.Some? &&
    (Holds(t, DirKey(env, dir)) ==>
      AddressBlocks(t, DirKey(env, dir)).Success? &&
      OwnerIndex(AddressBlocks(t, DirKey(env, dir)).value, dir.itemId.value) < |AddressBlocks(t, DirKey(env, dir)).value|)
  }

  // ---------------------------------------------------------------------------
  // Blocks
  // ---------------------------------------------------------------------------

  lemma OwnedAreListed(items: seq<ChildAddrList>, owner: u64)
    ensures forall c :: c in OwnedChildren(items, owner) ==> c in AllChildren(items)
  {
    if items != [] {
      OwnedAreListed(items[1..], owner);
    }
  }

  /** Every child of a block of `owner` is among its owned children. */
  lemma {:induction false} OwnedChildrenHas(items: seq<ChildAddrList>, owner: u64, k: nat, c: u64)
    requires k < |items| && items[k].itemId == owner && c in items[k].childIds
    ensures c in OwnedChildren(items, owner)
  {
    if k > 0 {
      OwnedChildrenHas(items[1..], owner, k - 1, c);
    }
  }

  lemma RemoveKeepsOthers(l: ChildAddrList, id: u64)
    requires l.Remove(id).Success?
    ensures forall c :: c in l.Remove(id).value.childIds ==> c in l.childIds
    ensures multiset(l.childIds)[id] == multiset(l.Remove(id).value.childIds)[id] + 1
  {
    var ids := l.childIds;
    var k :| 0 <= k < |ids| && ids[k] == id && id !in ids[..k]
             && l.Remove(id).value.childIds == ids[..k] + ids[k + 1..];
    DropOne(ids, k);
  }

  lemma DropOne(ids: seq<u64>, k: nat)
    requires k < |ids|
    ensures forall c :: c in ids[..k] + ids[k + 1..] ==> c in ids
    ensures multiset(ids)[ids[k]] == multiset(ids[..k] + ids[k + 1..])[ids[k]] + 1
  {
    assert ids == ids[..k] + [ids[k]] + ids[k + 1..];
  }

  /** The children of two runs of blocks, one after the other. */
  lemma {:induction false} AllChildrenAppend(a: seq<ChildAddrList>, b: seq<ChildAddrList>)
    ensures AllChildren(a + b) == AllChildren(a) + AllChildren(b)
    decreases |a|
  {
    if a == [] {
      assert a + b == b;
    } else {
      assert (a + b)[1..] == a[1..] + b;
      AllChildrenAppend(a[1..], b);
    }
  }

  /** The children before, in and after block `k`. */
  lemma {:induction false} AllChildrenAt(items: seq<ChildAddrList>, k: nat)
    requires k < |items|
    ensures AllChildren(items) == AllChildren(items[..k]) + items[k].childIds + AllChildren(items[k + 1..])
    decreases k
  {
    if k > 0 {
      AllChildrenAt(items[1..], k - 1);
      assert items[1..][..k - 1] == items[..k][1..];
      assert items[1..][k..] == items[k + 1..];
    }
  }

  lemma AllChildrenOne(b: ChildAddrList)
    ensures AllChildren([b]) == b.childIds
  {
    assert [b][1..] == [];
  }

  lemma {:induction false} RemoveFromOwnersKeepsOthers(items: seq<ChildAddrList>, owner: u64, id: u64)
    requires RemoveFromOwners(items, owner, id).Success?
    ensures forall c :: c in AllChildren(RemoveFromOwners(items, owner, id).value) ==> c in AllChildren(items)
    decreases |items|
  {
    if items != [] {
      var r := RemoveFromOwners(items, owner, id).value;
      var tail := RemoveFromOwners(items[1..], owner, id);
      assert tail.Success? && r[1..] == tail.value;
      RemoveFromOwnersKeepsOthers(items[1..], owner, id);
      if items[0].itemId == owner {
        RemoveKeepsOthers(items[0], id);
      }
    }
  }

  /** Taking `id` out of the blocks of `owner` leaves it listed nowhere when
      it was listed once, in such a block. */
  lemma {:induction false} RemoveFromOwnersDropsSole(items: seq<ChildAddrList>, owner: u64, id: u64)
    requires RemoveFromOwners(items, owner, id).Success?
    requires multiset(AllChildren(items))[id] == 1 && id in OwnedChildren(items, owner)
    ensures id !in AllChildren(RemoveFromOwners(items, owner, id).value)
    decreases |items|
  {
    var r := RemoveFromOwners(items, owner, id).value;
    var first := r[0];
    var tail := RemoveFromOwners(items[1..], owner, id);
    assert tail.Success? && r == [first] + tail.value;
    assert AllChildren(r) == first.childIds + AllChildren(tail.value) by {
      assert r[1..] == tail.value;
    }
    assert AllChildren(items) == items[0].childIds + AllChildren(items[1..]);
    RemoveFromOwnersKeepsOthers(items[1..], owner, id);
    if items[0].itemId == owner {
      RemoveKeepsOthers(items[0], id);
      assert id !in AllChildren(items[1..]);
    } else {
      assert id in OwnedChildren(items[1..], owner);
      OwnedAreListed(items[1..], owner);
      assert id !in items[0].childIds;
      RemoveFromOwnersDropsSole(items[1..], owner, id);
    }
  }

  // ---------------------------------------------------------------------------
  // Single writes
  // ---------------------------------------------------------------------------

  lemma LoadsButMore(t: Table, env: Env, p: set<u64>, q: set<u64>)
    requires LoadsBut(t, env, p) && p <= q
    ensures LoadsBut(t, env, q)
  {
  }

  /** Writing blocks that list only ids that load (or are pending) keeps the
      invariant; no item record changes. */
  lemma PutLoads(t: Table, env: Env, k: Key, items: seq<ChildAddrList>, p: set<u64>)
    requires k.keyType == KT_ADDR && |items| > 0 && PutBlocks(t, k, items).Success?
    requires LoadsBut(t, env, p)
    requires forall c :: c in AllChildren(items) && c !in p ==> ItemMDOf(t, env, c).Success?
    ensures LoadsBut(PutBlocks(t, k, items).value, env, p)
    ensures forall i: u64 :: ItemMDOf(PutBlocks(t, k, items).value, env, i) == ItemMDOf(t, env, i)
  {
    var t' := PutBlocks(t, k, items).value;
    PutBlocksReadBack(t, k, items);
    AddrWriteKeepsItems(t, env, k, EncodeItems(items).value);
    forall k2: Key, c: u64 |
      k2.keyType == KT_ADDR && AddressBlocks(t', k2).Success? &&
      c in AllChildren(AddressBlocks(t', k2).value) && c !in p
      ensures ItemMDOf(t', env, c).Success?
    {
      assert ItemMDOf(t', env, c) == ItemMDOf(t, env, c);
      if k2 != k {
        assert AddressBlocks(t', k2) == AddressBlocks(t, k2);
      }
    }
  }

  lemma DeleteLoads(t: Table, env: Env, k: Key, p: set<u64>)
    requires k.keyType == KT_ADDR && LoadsBut(t, env, p)
    ensures LoadsBut(t - {k.Dump()}, env, p)
    ensures forall i: u64 :: ItemMDOf(t - {k.Dump()}, env, i) == ItemMDOf(t, env, i)
    ensures AddressBlocks(t - {k.Dump()}, k) == Success([])
    ensures forall k2: Key :: k2 != k ==> AddressBlocks(t - {k.Dump()}, k2) == AddressBlocks(t, k2)
  {
    forall k2: Key | k2 != k
      ensures AddressBlocks(t - {k.Dump()}, k2) == AddressBlocks(t, k2)
    {
      KeyDumpInjective(k, k2);
    }
    AddrWriteKeepsItems(t, env, k, []);
  }

  /** Writing an item record that loads takes its id off the pending ids. */
  lemma ItemWriteLoads(t: Table, env: Env, id: u64, v: bytes, p: set<u64>)
    requires LoadsBut(t, env, p)
    requires ItemMDOf(t[ItemKey(id).Dump() := v], env, id).Success?
    ensures LoadsBut(t[ItemKey(id).Dump() := v], env, p - {id})
  {
    PutItemKeepsRecords(t, id, v);
    forall c: u64 | c != id
      ensures ItemMDOf(t[ItemKey(id).Dump() := v], env, c) == ItemMDOf(t, env, c)
    {
      ItemWriteKeepsOthers(t, env, c, id, v);
    }
  }

  /** Deleting an item record leaves only its own id unaccounted for. */
  lemma ItemDeleteLoads(t: Table, env: Env, id: u64, p: set<u64>)
    requires LoadsBut(t, env, p)
    ensures LoadsBut(t - {ItemKey(id).Dump()}, env, p + {id})
    ensures forall k: Key :: k.keyType == KT_ADDR ==>
      AddressBlocks(t - {ItemKey(id).Dump()}, k) == AddressBlocks(t, k)
  {
    var t' := t - {ItemKey(id).Dump()};
    forall k: Key | k.keyType == KT_ADDR
      ensures AddressBlocks(t', k) == AddressBlocks(t, k)
    {
      assert k.Dump()[KEY_LEN - 1] != ItemKey(id).Dump()[KEY_LEN - 1];
    }
    forall c: u64 | c != id
      ensures ItemMDOf(t', env, c) == ItemMDOf(t, env, c)
    {
      KeyDumpInjective(ItemKey(c), ItemKey(id));
    }
  }

  // ---------------------------------------------------------------------------
  // The steps of append, update and remove
  // ---------------------------------------------------------------------------

  /** __append_addr_child keeps the invariant once the new child loads (or is pending). */
  lemma ChildAddedLoads(t: Table, env: Env, dir: ItemMD, id: u64, p: set<u64>)
    requires dir.itemId.Some? && ChildAdded(t, env, dir, id).result.Success?
    requires LoadsBut(t, env, p) && (id in p || ItemMDOf(t, env, id).Success?)
    ensures LoadsBut(ChildAdded(t, env, dir, id).table, env, p)
    ensures forall i: u64 :: ItemMDOf(ChildAdded(t, env, dir, id).table, env, i) == ItemMDOf(t, env, i)
  {
    var k := DirKey(env, dir);
    if Holds(t, k) {
      var items := AddressBlocks(t, k).value;
      var added := AddChildToOwner(items, dir.itemId.value, id);
      assert ChildAdded(t, env, dir, id) == Put(t, k, added);
      AddedChildren(items, dir.itemId.value, id);
      PutLoads(t, env, k, added, p);
    } else {
      var one := [ChildAddrList(dir.itemId.value, [id])];
      assert ChildAdded(t, env, dir, id) == Put(t, k, one);
      assert AllChildren(one) == [id];
      PutLoads(t, env, k, one, p);
    }
  }

  /** Adding `id` to the first block of `owner` lists `id` and nothing else new. */
  lemma AddedChildren(items: seq<ChildAddrList>, owner: u64, id: u64)
    ensures forall c :: c in AllChildren(AddChildToOwner(items, owner, id)) ==> c in AllChildren(items) || c == id
  {
    var j := OwnerIndex(items, owner);
    var added := AddChildToOwner(items, owner, id);
    if j < |items| {
      assert added[..j] == items[..j] && added[j + 1..] == items[j + 1..];
      AllChildrenAt(added, j);
      AllChildrenAt(items, j);
    }
  }

  /** __remove_addr_child keeps the invariant. */
  lemma ChildRemovedLoads(t: Table, env: Env, dir: ItemMD, id: u64, p: set<u64>)
    requires dir.itemId.Some? && ChildRemoved(t, env, dir, id).result.Success?
    requires LoadsBut(t, env, p)
    ensures LoadsBut(ChildRemoved(t, env, dir, id).table, env, p)
    ensures forall i: u64 :: ItemMDOf(ChildRemoved(t, env, dir, id).table, env, i) == ItemMDOf(t, env, i)
  {
    var k := DirKey(env, dir);
    var items := AddressBlocks(t, k).value;
    var removed := RemoveFromOwners(items, dir.itemId.value, id).value;
    assert ChildRemoved(t, env, dir, id) == Put(t, k, removed);
    RemoveFromOwnersKeepsOthers(items, dir.itemId.value, id);
    PutLoads(t, env, k, removed, p);
  }

  /** __remove_addr_child rewrites the directory's record only. */
  lemma ChildRemovedBlocks(t: Table, env: Env, dir: ItemMD, id: u64)
    requires dir.itemId.Some? && ChildRemoved(t, env, dir, id).result.Success?
    ensures AddressBlocks(ChildRemoved(t, env, dir, id).table, DirKey(env, dir)) ==
      RemoveFromOwners(AddressBlocks(t, DirKey(env, dir)).value, dir.itemId.value, id)
    ensures forall k: Key :: k != DirKey(env, dir) ==>
      AddressBlocks(ChildRemoved(t, env, dir, id).table, k) == AddressBlocks(t, k)
  {
    var k := DirKey(env, dir);
    var removed := RemoveFromOwners(AddressBlocks(t, k).value, dir.itemId.value, id).value;
    assert ChildRemoved(t, env, dir, id) == Put(t, k, removed);
    PutBlocksReadBack(t, k, removed);
  }

  /** __update_addr keeps the invariant: an empty block lists nothing, and a
      moved block lists what it listed before. */
  lemma AddrUpdatedLoads(t: Table, env: Env, aKey: Key, id: u64, saveKey: Option<Key>, p: set<u64>)
    requires aKey.keyType == KT_ADDR && (saveKey.Some? ==> saveKey.value.keyType == KT_ADDR)
    requires AddrUpdated(t, aKey, id, saveKey).result.Success?
    requires LoadsBut(t, env, p)
    ensures LoadsBut(AddrUpdated(t, aKey, id, saveKey).table, env, p)
    ensures forall i: u64 :: ItemMDOf(AddrUpdated(t, aKey, id, saveKey).table, env, i) == ItemMDOf(t, env, i)
  {
    var items := AddressBlocks(t, aKey).value;
    if saveKey.None? {
      var grown := items + [ChildAddrList(id, [])];
      assert AddrUpdated(t, aKey, id, saveKey) == Put(t, aKey, grown);
      AllChildrenAppend(items, [ChildAddrList(id, [])]);
      AllChildrenOne(ChildAddrList(id, []));
      PutLoads(t, env, aKey, grown, p);
    } else {
      var k := OwnerIndex(items, id);
      var rest := items[..k] + items[k + 1..];
      var left := if rest == [] then Outcome(t - {aKey.Dump()}, Success(())) else Put(t, aKey, rest);
      assert AddrUpdated(t, aKey, id, saveKey) == MoveBlockIn(left.table, saveKey.value, items[k]);
      LeftLoads(t, env, aKey, items, k, p);
      MovedInLoads(t, left.table, env, saveKey.value, items, k, p);
    }
  }

  /** The record a move leaves behind, written back or deleted. */
  lemma LeftLoads(t: Table, env: Env, aKey: Key, items: seq<ChildAddrList>, k: nat, p: set<u64>)
    requires aKey.keyType == KT_ADDR && AddressBlocks(t, aKey) == Success(items) && k < |items|
    requires var rest := items[..k] + items[k + 1..];
      rest != [] ==> Put(t, aKey, rest).result.Success?
    requires LoadsBut(t, env, p)
    ensures var rest := items[..k] + items[k + 1..];
      var left := if rest == [] then t - {aKey.Dump()} else Put(t, aKey, rest).table;
      LoadsBut(left, env, p) && forall i: u64 :: ItemMDOf(left, env, i) == ItemMDOf(t, env, i)
  {
    var rest := items[..k] + items[k + 1..];
    if rest == [] {
      DeleteLoads(t, env, aKey, p);
    } else {
      AllChildrenAt(items, k);
      AllChildrenAppend(items[..k], items[k + 1..]);
      PutLoads(t, env, aKey, rest, p);
    }
  }

  /** The moved block joins the record at `saveKey`. */
  lemma MovedInLoads(t: Table, t1: Table, env: Env, saveKey: Key, items: seq<ChildAddrList>, k: nat, p: set<u64>)
    requires saveKey.keyType == KT_ADDR && k < |items|
    requires MoveBlockIn(t1, saveKey, items[k]).result.Success?
    requires LoadsBut(t1, env, p) && forall i: u64 :: ItemMDOf(t1, env, i) == ItemMDOf(t, env, i)
    requires forall c :: c in AllChildren(items) && c !in p ==> ItemMDOf(t, env, c).Success?
    ensures LoadsBut(MoveBlockIn(t1, saveKey, items[k]).table, env, p)
    ensures forall i: u64 :: ItemMDOf(MoveBlockIn(t1, saveKey, items[k]).table, env, i) == ItemMDOf(t, env, i)
  {
    var there := AddressBlocks(t1, saveKey).value;
    var target := there + [items[k]];
    assert MoveBlockIn(t1, saveKey, items[k]) == Put(t1, saveKey, target);
    AllChildrenAppend(there, [items[k]]);
    AllChildrenOne(items[k]);
    AllChildrenAt(items, k);
    PutLoads(t1, env, saveKey, target, p);
  }


  /** The parent change of __update_addr_item keeps the invariant for an
      item that loads. */
  lemma ReparentedLoads(t: Table, env: Env, oldParent: u64, newParent: u64, id: u64, p: set<u64>)
    requires Reparented(t, env, oldParent, newParent, id).result.Success?
    requires LoadsBut(t, env, p) && ItemMDOf(t, env, id).Success?
    ensures LoadsBut(Reparented(t, env, oldParent, newParent, id).table, env, p)
    ensures forall i: u64 :: ItemMDOf(Reparented(t, env, oldParent, newParent, id).table, env, i) == ItemMDOf(t, env, i)
  {
    var oldDir := ItemMDOf(t, env, oldParent).value;
    ChildRemovedLoads(t, env, oldDir, id, p);
    var t1 := ChildRemoved(t, env, oldDir, id).table;
    var newDir := ItemMDOf(t1, env, newParent).value;
    ChildAddedLoads(t1, env, newDir, id, p);
  }

  lemma AddrItemUpdatedLoads(t: Table, env: Env, before: ItemMD, after: ItemMD, p: set<u64>)
    requires before.itemId.Some? && AddrItemUpdated(t, env, before, after).result.Success?
    requires LoadsBut(t, env, p) && ItemMDOf(t, env, before.itemId.value).Success?
    ensures LoadsBut(AddrItemUpdated(t, env, before, after).table, env, p)
    ensures forall i: u64 :: ItemMDOf(AddrItemUpdated(t, env, before, after).table, env, i) == ItemMDOf(t, env, i)
  {
    var id := before.itemId.value;
    var t1 := t;
    if before.name != after.name || before.parentDirId != after.parentDirId {
      var aKey := NameKey(env, before.parentDirId, before.name);
      var saveKey := NameKey(env, after.parentDirId, after.name);
      AddrUpdatedLoads(t, env, aKey, id, Some(saveKey), p);
      t1 := AddrUpdated(t, aKey, id, Some(saveKey)).table;
    }
    if before.parentDirId != after.parentDirId {
      ReparentedLoads(t1, env, before.parentDirId, after.parentDirId, id, p);
    }
  }

  // ---------------------------------------------------------------------------
  // The public writes
  // ---------------------------------------------------------------------------

  /** A successful append keeps every listed child loadable, the case where
      the directory's record and md's (parent, name hash) record are one
      record included. */
  lemma AppendedUnderKeepsChildrenLoad(t: Table, env: Env, md: ItemMD, dir: ItemMD, now: int)
    requires EnvOk(env) && dir.itemId.Some? && ChildrenLoad(t, env)
    requires AppendedUnder(t, env, md, dir, now).result.Success?
    ensures ChildrenLoad(AppendedUnder(t, env, md, dir, now).table, env)
  {
    AppendedUnderSteps(t, env, md, dir, now);
    var id := md.itemId.value;
    LoadsButMore(t, env, {}, {id});
    ChildAddedLoads(t, env, dir, id, {id});
    var t1 := ChildAdded(t, env, dir, id).table;
    var nk := NameKey(env, dir.itemId.value, md.name);
    AddrUpdatedLoads(t1, env, nk, id, None, {id});
    var t2 := AddrUpdated(t1, nk, id, None).table;
    var rec := PadMD(env, md).value;
    var t3 := t2[ItemKey(id).Dump() := rec];
    ItemRecordReadBack(t2, env, id, md);
    ItemWriteLoads(t2, env, id, rec, {id});
    assert {id} - {id} == {};
    if dir.itemId.value != ROOT_ID {
      var touched := dir.(modified := now);
      var drec := PadMD(env, touched).value;
      ItemRecordReadBack(t3, env, dir.itemId.value, touched);
      ItemWriteLoads(t3, env, dir.itemId.value, drec, {});
      assert {} - {dir.itemId.value} == {};
    }
  }

  /** A successful update keeps every listed child loadable. */
  lemma UpdatedKeepsChildrenLoad(t: Table, env: Env, md: ItemMD, now: int)
    requires EnvOk(env) && ChildrenLoad(t, env)
    requires Updated(t, env, md, now).result.Success?
    ensures ChildrenLoad(Updated(t, env, md, now).table, env)
  {
    var id := md.itemId.value;
    var stored := ItemMDOf(t, env, id).value;
    AddrItemUpdatedLoads(t, env, stored, md, {});
    var t1 := AddrItemUpdated(t, env, stored, md).table;
    var md' := if md.isFile then md else md.(modified := now);
    var rec := PadMD(env, md').value;
    ItemRecordReadBack(t1, env, id, md');
    ItemWriteLoads(t1, env, id, rec, {});
    assert {} - {id} == {};
  }

  /** A successful remove keeps every listed child loadable when the item
      was listed once, in its parent's block.  (An id listed under a second
      directory as well would be left there without a record.) */
  lemma RemovedKeepsChildrenLoad(t: Table, env: Env, md: ItemMD, dir: ItemMD)
    requires ChildrenLoad(t, env) && md.itemId.Some?
    requires ItemMDOf(t, env, md.parentDirId) == Success(dir)
    requires ListedOnceUnder(t, md.itemId.value, DirKey(env, dir), md.parentDirId)
    requires Removed(t, env, md).result.Success?
    ensures ChildrenLoad(Removed(t, env, md).table, env)
  {
    RemovedTable(t, env, md);
    UnlistedThenDeletedLoads(t, env, dir, md.itemId.value, NameKey(env, md.parentDirId, md.name));
  }

  /** remove's writes, from __remove_addr_child on. */
  lemma UnlistedThenDeletedLoads(t: Table, env: Env, dir: ItemMD, id: u64, aKey: Key)
    requires dir.itemId.Some? && aKey.keyType == KT_ADDR
    requires ChildRemoved(t, env, dir, id).result.Success?
    requires ChildrenLoad(t, env) && ListedOnceUnder(t, id, DirKey(env, dir), dir.itemId.value)
    ensures ChildrenLoad(ChildRemoved(t, env, dir, id).table - {aKey.Dump(), ItemKey(id).Dump()}, env)
  {
    ChildRemovedLoads(t, env, dir, id, {});
    var t1 := ChildRemoved(t, env, dir, id).table;
    DeletesLoad(t1, env, aKey, id);
    UnlistedAfterRemove(t, env, dir, id, aKey);
    PendingUnlisted(t1 - {aKey.Dump(), ItemKey(id).Dump()}, env, id);
  }

  /** remove's two deletions leave only the removed id unaccounted for. */
  lemma DeletesLoad(t: Table, env: Env, aKey: Key, id: u64)
    requires aKey.keyType == KT_ADDR && ChildrenLoad(t, env)
    ensures LoadsBut(t - {aKey.Dump(), ItemKey(id).Dump()}, env, {id})
  {
    DeleteLoads(t, env, aKey, {});
    ItemDeleteLoads(t - {aKey.Dump()}, env, id, {});
    assert {} + {id} == {id};
    assert t - {aKey.Dump()} - {ItemKey(id).Dump()} == t - {aKey.Dump(), ItemKey(id).Dump()};
  }


  /** After remove's writes `id` is listed nowhere. */
  lemma UnlistedAfterRemove(t: Table, env: Env, dir: ItemMD, id: u64, aKey: Key)
    requires dir.itemId.Some? && aKey.keyType == KT_ADDR
    requires ChildRemoved(t, env, dir, id).result.Success?
    requires ListedOnceUnder(t, id, DirKey(env, dir), dir.itemId.value)
    ensures var t3 := ChildRemoved(t, env, dir, id).table - {aKey.Dump(), ItemKey(id).Dump()};
      forall k: Key :: k.keyType == KT_ADDR && AddressBlocks(t3, k).Success? ==>
        id !in AllChildren(AddressBlocks(t3, k).value)
  {
    var dk := DirKey(env, dir);
    ChildRemovedBlocks(t, env, dir, id);
    var t1 := ChildRemoved(t, env, dir, id).table;
    RemoveFromOwnersDropsSole(AddressBlocks(t, dk).value, dir.itemId.value, id);
    forall k: Key | k.keyType == KT_ADDR && AddressBlocks(t1 - {aKey.Dump(), ItemKey(id).Dump()}, k).Success?
      ensures id !in AllChildren(AddressBlocks(t1 - {aKey.Dump(), ItemKey(id).Dump()}, k).value)
    {
      DeletedBlocks(t1, aKey, id, k);
    }
  }

  /** Deleting the record at `aKey` and an item record empties `aKey` and
      leaves every other address record as it was. */
  lemma DeletedBlocks(t: Table, aKey: Key, id: u64, k: Key)
    requires aKey.keyType == KT_ADDR && k.keyType == KT_ADDR
    ensures AddressBlocks(t - {aKey.Dump(), ItemKey(id).Dump()}, k) ==
      if k == aKey then Success([]) else AddressBlocks(t, k)
  {
    assert k.Dump()[KEY_LEN - 1] != ItemKey(id).Dump()[KEY_LEN - 1];
    if k != aKey {
      KeyDumpInjective(k, aKey);
    }
  }

  /** A pending id that is listed nowhere is no exception to the invariant. */
  lemma PendingUnlisted(t: Table, env: Env, id: u64)
    requires LoadsBut(t, env, {id})
    requires forall k: Key :: k.keyType == KT_ADDR && AddressBlocks(t, k).Success? ==>
      id !in AllChildren(AddressBlocks(t, k).value)
    ensures ChildrenLoad(t, env)
  {
  }



  /** An append that raises after __append_addr_child -- the item's dump
      cannot be padded, or the (dir, name hash) record cannot be packed --
      leaves the new id listed in the directory with no item record: nothing
      is rolled back. */
  lemma FailedAppendLeavesUnrecordedChild(t: Table, env: Env, md: ItemMD, dir: ItemMD, now: int)
    requires OwnsBlock(t, env, dir) && md.itemId.Some?
    requires NameTaken(t, env, md.parentDirId, md.name) == Success(false)
    requires ItemKey(md.itemId.value).Dump() !in t
    requires ChildAdded(t, env, dir, md.itemId.value).result.Success?
    requires PadMD(env, md).Failure? ||
      AddrUpdated(ChildAdded(t, env, dir, md.itemId.value).table,
                  NameKey(env, dir.itemId.value, md.name), md.itemId.value, None).result.Failure?
    ensures var after := AppendedUnder(t, env, md, dir, now);
      after.result.Failure? &&
      AddressBlocks(after.table, DirKey(env, dir)).Success? &&
      md.itemId.value in AllChildren(AddressBlocks(after.table, DirKey(env, dir)).value) &&
      ItemMDOf(after.table, env, md.itemId.value) == Failure(NotFound) &&
      !ChildrenLoad(after.table, env)
  {
    var id := md.itemId.value;
    var dk := DirKey(env, dir);
    var t1 := ChildAdded(t, env, dir, id).table;
    ListsAfterChildAdded(t, env, dir, id);
    var nk := NameKey(env, dir.itemId.value, md.name);
    var addressed := AddrUpdated(t1, nk, id, None);
    var after := AppendedUnder(t, env, md, dir, now);
    assert ItemKey(id).Dump() !in t1;
    if addressed.result.Success? {
      KeepsListing(t1, nk, addressed.table, dk, dir.itemId.value, id);
      assert after.table == addressed.table;
      OwnedAreListed(AddressBlocks(after.table, dk).value, dir.itemId.value);
    } else {
      assert after.table == t1;
      var blocks := AddressBlocks(t1, dk).value;
      var i :| 0 <= i < |blocks| && blocks[i].itemId == dir.itemId.value && id in blocks[i].childIds;
      AllChildrenAt(blocks, i);
    }
    assert ItemKey(id).Dump() !in after.table;
    assert dk.Dump()[KEY_LEN - 1] == KT_ADDR;
  }

  /** After __append_addr_child the directory owns a block listing `id`. */
  lemma ListsAfterChildAdded(t: Table, env: Env, dir: ItemMD, id: u64)
    requires OwnsBlock(t, env, dir) && ChildAdded(t, env, dir, id).result.Success?
    ensures var blocks := AddressBlocks(ChildAdded(t, env, dir, id).table, DirKey(env, dir));
      blocks.Success? &&
      exists i :: 0 <= i < |blocks.value| && blocks.value[i].itemId == dir.itemId.value && id in blocks.value[i].childIds
  {
    var k := DirKey(env, dir);
    if Holds(t, k) {
      var items := ParseItems(t[k.Dump()]).value;
      var added := AddChildToOwner(items, dir.itemId.value, id);
      PutBlocksReadBack(t, k, added);
      var j := OwnerIndex(items, dir.itemId.value);
      assert added[j].itemId == dir.itemId.value && id in added[j].childIds;
    } else {
      var one := [ChildAddrList(dir.itemId.value, [id])];
      PutBlocksReadBack(t, k, one);
      assert one[0].itemId == dir.itemId.value && id in one[0].childIds;
    }
  }

  /** Appending an empty block at `nk` keeps a listing of `id` by `owner` at `dk`. */
  lemma KeepsListing(t: Table, nk: Key, after: Table, dk: Key, owner: u64, id: u64)
    requires AddrUpdated(t, nk, id, None).result.Success? && after == AddrUpdated(t, nk, id, None).table
    requires AddressBlocks(t, dk).Success?
    requires exists i :: 0 <= i < |AddressBlocks(t, dk).value| && AddressBlocks(t, dk).value[i].itemId == owner && id in AddressBlocks(t, dk).value[i].childIds
    ensures AddressBlocks(after, dk).Success? && id in OwnedChildren(AddressBlocks(after, dk).value, owner)
  {
    var items := AddressBlocks(t, nk).value;
    var grown := items + [ChildAddrList(id, [])];
    PutBlocksReadBack(t, nk, grown);
    var i :| 0 <= i < |AddressBlocks(t, dk).value| &&
      AddressBlocks(t, dk).value[i].itemId == owner && id in AddressBlocks(t, dk).value[i].childIds;
    if dk == nk {
      assert grown[i] == items[i];
      OwnedChildrenHas(grown, owner, i, id);
    } else {
      OwnedChildrenHas(AddressBlocks(t, dk).value, owner, i, id);
    }
  }

  // ---------------------------------------------------------------------------
  // listdir
  // ---------------------------------------------------------------------------

  /** With the invariant, listdir of a path that resolves succeeds. */
  lemma ListingSucceeds(t: Table, env: Env, path: string)
    requires TableOk(t) && ChildrenLoad(t, env) && Resolve(t, env, path).Success?
    ensures Listing(t, env, path).Success?
  {
    var dir := Resolve(t, env, path).value;
    var k := DirKey(env, dir);
    assert k.Dump()[KEY_LEN - 1] == KT_ADDR;
    var items := AddressBlocks(t, k).value;
    var ids := OwnedChildren(items, dir.itemId.value);
    OwnedAreListed(items, dir.itemId.value);
  }

  /** After a successful append under a directory that owns its block,
      listdir of any path that leads to that directory succeeds and lists
      the new item. */
  lemma AppendedIsListed(t: Table, env: Env, md: ItemMD, dir: ItemMD, now: int, path: string)
    requires TableOk(t) && EnvOk(env) && ChildrenLoad(t, env) && OwnsBlock(t, env, dir)
    requires AppendedUnder(t, env, md, dir, now).result.Success? && md.itemId != dir.itemId
    requires var found := Resolve(AppendedUnder(t, env, md, dir, now).table, env, path);
      found.Success? && found.value.itemId == dir.itemId &&
      found.value.parentDirId == dir.parentDirId && found.value.name == dir.name
    ensures var after := AppendedUnder(t, env, md, dir, now).table;
      Listing(after, env, path).Success? && md in Listing(after, env, path).value
  {
    var after := AppendedUnder(t, env, md, dir, now).table;
    AppendedIsRecorded(t, env, md, dir, now);
    AppendedUnderKeepsChildrenLoad(t, env, md, dir, now);
    ListingSucceeds(after, env, path);
    var ids := OwnedChildren(AddressBlocks(after, DirKey(env, dir)).value, dir.itemId.value);
    var listed := Listing(after, env, path).value;
    var i :| 0 <= i < |ids| && ids[i] == md.itemId.value;
    assert ItemMDOf(after, env, md.itemId.value) == Success(listed[i]);
  }

  /** After a successful append under a directory that owns its block, the
      directory's own blocks list the new id and its record loads as md. */
  lemma AppendedIsRecorded(t: Table, env: Env, md: ItemMD, dir: ItemMD, now: int)
    requires TableOk(t) && EnvOk(env) && OwnsBlock(t, env, dir)
    requires AppendedUnder(t, env, md, dir, now).result.Success? && md.itemId != dir.itemId
    ensures var after := AppendedUnder(t, env, md, dir, now).table;
      md.itemId.Some? && TableOk(after) && AddressBlocks(after, DirKey(env, dir)).Success? &&
      md.itemId.value in OwnedChildren(AddressBlocks(after, DirKey(env, dir)).value, dir.itemId.value) &&
      ItemMDOf(after, env, md.itemId.value) == Success(md)
  {
    AppendedUnderSteps(t, env, md, dir, now);
    var id := md.itemId.value;
    var dk := DirKey(env, dir);
    ChildAddedEffect(t, env, dir, id);
    var t1 := ChildAdded(t, env, dir, id).table;
    ListsAfterChildAdded(t, env, dir, id);
    var nk := NameKey(env, dir.itemId.value, md.name);
    var t2 := AddrUpdated(t1, nk, id, None).table;
    KeepsListing(t1, nk, t2, dk, dir.itemId.value, id);
    AddrUpdatedAppendsBlock(t1, env, nk, id);
    RecordsWrittenEffect(t2, env, md, dir, now);
  }
}
