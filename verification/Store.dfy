/** The metadata table of nimbus_client/core/metadata_file.py as values: the
    key -> bytes map, what each read of it returns, and what each write of
    MetadataFile leaves in it.  The class in MetadataFile.dfy performs these
    steps in place; the lemmas here state what they promise. */
module Store {
  import opened Wrappers
  import opened Exceptions
  import opened Bytes
  import opened Records
  import opened Paths

  /** The dbm database: dumped keys to raw values. */
  type Table = map<bytes, bytes>

  /** The value of an item key whose id is reserved but not yet used ('RI'). */
  const RESERVE_ITEM: bytes := [0x52, 0x49]
  const ROOT_ID: u64 := 0
  const ROOT_NAME: string := "/"
  const U64_LIMIT: nat := 0x1_0000_0000_0000_0000

  /** DirectoryMD / FileMD as far as this file uses them; `details` stands for
      every other field, which only the item's own dump carries. */
  datatype ItemMD = ItemMD(itemId: Option<u64>, parentDirId: u64, name: string,
                           isFile: bool, modified: int, details: bytes)

  /** What the store takes from outside: the name hash (zlib.adler32) and
      the item metadata codec (`md.dump()` and `DirectoryMD(dumped_md=...)` /
      `FileMD(dumped_md=...)`, None where the constructor raises). */
  datatype Env = Env(hash: string -> i32, dumpMD: ItemMD -> bytes, loadMD: (bytes, bool) -> Option<ItemMD>)

  /** The metadata codec loads back every dump, up to the item id, which the
      store sets itself. */
  ghost predicate EnvOk(env: Env)
  {
    forall m: ItemMD ::
      env.loadMD(env.dumpMD(m), m.isFile).Some? &&
      env.loadMD(env.dumpMD(m), m.isFile).value.(itemId := m.itemId) == m
  }

  /** The table after an operation, and what the operation returned or raised.
      Python keeps every write made before an exception. */
  datatype Outcome<T> = Outcome(table: Table, result: Result<T, Error>)

  // ---------------------------------------------------------------------------
  // The table invariant
  // ---------------------------------------------------------------------------

  predicate KeyOk(k: bytes)
  {
    |k| == KEY_LEN && (k[KEY_LEN - 1] == KT_ADDR || k[KEY_LEN - 1] == KT_ITEM)
  }

  /** Every key is a dumped Key of one of the two types, and every address
      record decodes into a non-empty list of blocks. */
  ghost predicate TableOk(t: Table)
  {
    forall k :: k in t ==> KeyOk(k) && (k[KEY_LEN - 1] == KT_ADDR ==> ParseItems(t[k]).Success?)
  }

  // ---------------------------------------------------------------------------
  // Address records
  // ---------------------------------------------------------------------------

  /** `if raw:` on __get_raw_value(k): present and not the empty string. */
  predicate Holds(t: Table, k: Key)
  {
    k.Dump() in t && t[k.Dump()] != []
  }

  /** The blocks an operation starts from: the decoded record, or a fresh
      empty AddressItems when there is none. */
  function AddressBlocks(t: Table, k: Key): (r: Result<seq<ChildAddrList>, Error>)
    ensures r.Success? && Holds(t, k) ==> |r.value| > 0
  {
    if Holds(t, k) then ParseItems(t[k.Dump()]) else Success([])
  }

  /** __set_raw_value(k, addr_items.dump()) */
  function PutBlocks(t: Table, k: Key, items: seq<ChildAddrList>): (r: Result<Table, Error>)
    ensures r.Success? <==> EncodeItems(items).Success?
    ensures r.Success? ==> r.value.Keys == t.Keys + {k.Dump()}
  {
    var e :- EncodeItems(items);
    Success(t[k.Dump() := e])
  }

  /** PutBlocks as a step of an operation. */
  function Put(t: Table, k: Key, items: seq<ChildAddrList>): (r: Outcome<()>)
    ensures r.result.Failure? ==> r.table == t
  {
    match PutBlocks(t, k, items)
    case Failure(e) => Outcome(t, Failure(e))
    case Success(t') => Outcome(t', Success(()))
  }

  /** A written record reads back as the blocks written; no other record changes. */
  lemma PutBlocksReadBack(t: Table, k: Key, items: seq<ChildAddrList>)
    requires |items| > 0 && PutBlocks(t, k, items).Success?
    ensures AddressBlocks(PutBlocks(t, k, items).value, k) == Success(items)
    ensures forall k2: Key :: k2 != k ==>
      AddressBlocks(PutBlocks(t, k, items).value, k2) == AddressBlocks(t, k2)
  {
    EncodeItemsNonEmpty(items);
    ItemsRoundTrip(items);
    forall k2: Key | k2 != k
      ensures AddressBlocks(PutBlocks(t, k, items).value, k2) == AddressBlocks(t, k2)
    {
      KeyDumpInjective(k, k2);
    }
  }

  lemma PutBlocksKeepsTableOk(t: Table, k: Key, items: seq<ChildAddrList>)
    requires TableOk(t) && k.keyType == KT_ADDR && |items| > 0
    requires PutBlocks(t, k, items).Success?
    ensures TableOk(PutBlocks(t, k, items).value)
  {
    EncodeItemsNonEmpty(items);
    ItemsRoundTrip(items);
  }

  /** Writing an item record touches no address record and keeps the invariant. */
  lemma PutItemKeepsRecords(t: Table, id: u64, v: bytes)
    ensures forall k: Key :: k.keyType == KT_ADDR ==>
      AddressBlocks(t[ItemKey(id).Dump() := v], k) == AddressBlocks(t, k)
    ensures TableOk(t) ==> TableOk(t[ItemKey(id).Dump() := v])
  {
    forall k: Key | k.keyType == KT_ADDR
      ensures AddressBlocks(t[ItemKey(id).Dump() := v], k) == AddressBlocks(t, k)
    {
      assert k.Dump()[KEY_LEN - 1] != ItemKey(id).Dump()[KEY_LEN - 1];
    }
  }

  // ---------------------------------------------------------------------------
  // Item records
  // ---------------------------------------------------------------------------

  /** __do_item_raw_padding(md) */
  function PadMD(env: Env, m: ItemMD): (r: Result<bytes, Error>)
    ensures r.Success? ==> UnpadItem(r.value) == Success((env.dumpMD(m), ItemType(m.isFile)))
    ensures r.Success? ==> |r.value| % ITEM_PADDING_SIZE == 0
  {
    var padded := PadItem(env.dumpMD(m), m.isFile);
    if padded.Failure? then padded
    else
      ItemPaddingRoundTrip(env.dumpMD(m), m.isFile);
      padded
  }

  /** __get_item_md(id): the record's metadata, with item_id set to id. */
  function ItemMDOf(t: Table, env: Env, id: u64): (r: Result<ItemMD, Error>)
    ensures r.Success? ==> r.value.itemId == Some(id) && ItemKey(id).Dump() in t
    ensures ItemKey(id).Dump() !in t ==> r == Failure(NotFound)
  {
    var k := ItemKey(id).Dump();
    if k !in t then Failure(NotFound)
    else
      var unpadded :- UnpadItem(t[k]);
      var itemType := unpadded.1;
      if itemType != IT_DIRECTORY && itemType != IT_FILE then Failure(UnknownItemType)
      else
        var md := env.loadMD(unpadded.0, itemType == IT_FILE);
        if md.None? then Failure(BadItemDump) else Success(md.value.(itemId := Some(id)))
  }

  /** A padded record written under id reads back as the metadata written, with
      item_id set to id. */
  lemma ItemRecordReadBack(t: Table, env: Env, id: u64, m: ItemMD)
    requires EnvOk(env) && PadMD(env, m).Success?
    ensures ItemMDOf(t[ItemKey(id).Dump() := PadMD(env, m).value], env, id) == Success(m.(itemId := Some(id)))
  {
    ItemPaddingRoundTrip(env.dumpMD(m), m.isFile);
    var loaded := env.loadMD(env.dumpMD(m), m.isFile);
    assert loaded.Some? && loaded.value.(itemId := m.itemId) == m;
    assert loaded.value.(itemId := Some(id)) == m.(itemId := Some(id));
  }

  /** The item record under `id` carries `name`. */
  predicate Named(t: Table, env: Env, id: u64, name: string)
  {
    ItemMDOf(t, env, id).Success? && ItemMDOf(t, env, id).value.name == name
  }

  // ---------------------------------------------------------------------------
  // Lookups: __get_child_id, __exists, find, listdir
  // ---------------------------------------------------------------------------

  /** The first of `ids` whose item record is called `name`; a record that
      cannot be loaded stops the search with its error. */
  function FirstNamed(t: Table, env: Env, ids: seq<u64>, name: string): (r: Result<Option<u64>, Error>)
    ensures r == Success(None) ==> forall i :: 0 <= i < |ids| ==>
      ItemMDOf(t, env, ids[i]).Success? && !Named(t, env, ids[i], name)
    ensures r.Success? && r.value.Some? ==> r.value.value in ids && Named(t, env, r.value.value, name)
  {
    if ids == [] then Success(None)
    else
      var md :- ItemMDOf(t, env, ids[0]);
      if md.name == name then Success(Some(ids[0])) else FirstNamed(t, env, ids[1..], name)
  }

  /** The key of the address record holding `name` under directory `dirId`. */
  function NameKey(env: Env, dirId: u64, name: string): Key
  {
    AddrKey(dirId, env.hash(name))
  }

  /** __get_child_id(dir_id, name) */
  function ChildId(t: Table, env: Env, dirId: u64, name: string): (r: Result<u64, Error>)
    ensures !Holds(t, NameKey(env, dirId, name)) ==> r == Failure(PathNotFound)
    ensures r.Success? ==>
      Holds(t, NameKey(env, dirId, name)) &&
      IterItemIds(t[NameKey(env, dirId, name).Dump()]).Success? &&
      var ids := IterItemIds(t[NameKey(env, dirId, name).Dump()]).value;
      r.value in ids && (|ids| > 1 ==> Named(t, env, r.value, name))
  {
    var k := NameKey(env, dirId, name);
    if !Holds(t, k) then Failure(PathNotFound)
    else
      var ids :- IterItemIds(t[k.Dump()]);
      if |ids| == 0 then Failure(PathNotFound)
      else if |ids| > 1 then
        var found :- FirstNamed(t, env, ids, name);
        if found.None? then Failure(PathNotFound) else Success(found.value)
      else Success(ids[0])
  }

  /** __exists(md): some item in md's (parent, hash(name)) record is called md.name. */
  function NameTaken(t: Table, env: Env, parentId: u64, name: string): (r: Result<bool, Error>)
    ensures r.Success? && r.value ==> Holds(t, NameKey(env, parentId, name))
    ensures r.Success? && Holds(t, NameKey(env, parentId, name)) ==>
      IterItemIds(t[NameKey(env, parentId, name).Dump()]).Success? &&
      var ids := IterItemIds(t[NameKey(env, parentId, name).Dump()]).value;
      r.value <==> exists i :: 0 <= i < |ids| && Named(t, env, ids[i], name)
  {
    var k := NameKey(env, parentId, name);
    if !Holds(t, k) then Success(false)
    else
      var ids :- IterItemIds(t[k.Dump()]);
      var found :- FirstNamed(t, env, ids, name);
      Success(found.Some?)
  }

  /** find's loop over the path components from directory `cur`; empty
      components and '/' are skipped. */
  function Walk(t: Table, env: Env, cur: u64, comps: seq<string>): (r: Result<u64, Error>)
    ensures (forall i :: 0 <= i < |comps| ==> comps[i] == "" || comps[i] == ROOT_NAME) ==> r == Success(cur)
    ensures r.Success? && r.value != cur ==>
      exists i :: 0 <= i < |comps| && comps[i] != "" && comps[i] != ROOT_NAME
    decreases comps
  {
    if comps == [] then Success(cur)
    else if comps[0] == "" || comps[0] == ROOT_NAME then Walk(t, env, cur, comps[1..])
    else
      var next :- ChildId(t, env, cur, comps[0]);
      Walk(t, env, next, comps[1..])
  }

  /** find(path) */
  function Resolve(t: Table, env: Env, path: string): (r: Result<ItemMD, Error>)
    ensures r.Success? ==> r.value.itemId.Some?
  {
    var id :- Walk(t, env, ROOT_ID, Split(path));
    ItemMDOf(t, env, id)
  }

  /** The child ids of every block owned by `owner`, in order. */
  function OwnedChildren(items: seq<ChildAddrList>, owner: u64): seq<u64>
  {
    if items == [] then []
    else (if items[0].itemId == owner then items[0].childIds else []) + OwnedChildren(items[1..], owner)
  }

  /** The item records of `ids`, in order; the first that cannot be loaded
      raises. */
  function ItemMDs(t: Table, env: Env, ids: seq<u64>): (r: Result<seq<ItemMD>, Error>)
    ensures r.Success? ==> |r.value| == |ids|
    ensures r.Success? ==> forall i :: 0 <= i < |ids| ==> ItemMDOf(t, env, ids[i]) == Success(r.value[i])
    ensures r.Failure? ==> exists i :: 0 <= i < |ids| && ItemMDOf(t, env, ids[i]).Failure?
  {
    if ids == [] then Success([])
    else
      var m :- ItemMDOf(t, env, ids[0]);
      var ms :- ItemMDs(t, env, ids[1..]);
      Success([m] + ms)
  }

  /** One step of ItemMDs from position j of `ids`. */
  lemma ItemMDsAt(t: Table, env: Env, ids: seq<u64>, j: nat)
    requires j < |ids|
    ensures ItemMDOf(t, env, ids[j]).Failure? ==>
      ItemMDs(t, env, ids[j..]) == Failure(ItemMDOf(t, env, ids[j]).error)
    ensures ItemMDOf(t, env, ids[j]).Success? ==>
      ItemMDs(t, env, ids[j..]) == Prefixed([ItemMDOf(t, env, ids[j]).value], ItemMDs(t, env, ids[j + 1..]))
  {
    assert ids[j..][1..] == ids[j + 1..];
  }

  /** Loading the records of a + b loads those of a, then those of b. */
  lemma {:induction false} ItemMDsAppend(t: Table, env: Env, a: seq<u64>, b: seq<u64>)
    ensures ItemMDs(t, env, a + b) ==
      match ItemMDs(t, env, a)
      case Failure(e) => Failure(e)
      case Success(ms) => Prefixed(ms, ItemMDs(t, env, b))
  {
    if a == [] {
      assert a + b == b;
      PrefixedEmpty(ItemMDs(t, env, b));
    } else {
      assert (a + b)[0] == a[0];
      assert (a + b)[1..] == a[1..] + b;
      ItemMDsAppend(t, env, a[1..], b);
      if ItemMDOf(t, env, a[0]).Success? && ItemMDs(t, env, a[1..]).Success? {
        PrefixedAssoc([ItemMDOf(t, env, a[0]).value], ItemMDs(t, env, a[1..]).value, ItemMDs(t, env, b));
      }
    }
  }

  /** The key of the record holding directory `dir`'s own block (par_a_key). */
  function DirKey(env: Env, dir: ItemMD): Key
  {
    AddrKey(dir.parentDirId, env.hash(dir.name))
  }

  /** listdir(path) */
  function Listing(t: Table, env: Env, path: string): (r: Result<seq<ItemMD>, Error>)
    ensures r.Success? ==>
      Resolve(t, env, path).Success? &&
      var dir := Resolve(t, env, path).value;
      AddressBlocks(t, DirKey(env, dir)).Success? &&
      var ids := OwnedChildren(AddressBlocks(t, DirKey(env, dir)).value, dir.itemId.value);
      |r.value| == |ids| && forall i :: 0 <= i < |ids| ==> ItemMDOf(t, env, ids[i]) == Success(r.value[i])
  {
    var dir :- Resolve(t, env, path);
    var items :- AddressBlocks(t, DirKey(env, dir));
    ItemMDs(t, env, OwnedChildren(items, dir.itemId.value))
  }

  // ---------------------------------------------------------------------------
  // Id allocation: __get_next_item_id, cancel_item_id_reserve
  // ---------------------------------------------------------------------------

  /** One step of __last_item_id: up by one, back to 1 on reaching maxId. */
  function NextCounter(x: nat, maxId: nat): (y: nat)
    requires maxId >= 2
    ensures 1 <= y < maxId
  {
    if x + 1 >= maxId then 1 else x + 1
  }

  /** The probe loop of __get_next_item_id from counter `cur`, with `budget`
      probes left: the counter it stops at and the free id it found.  An id is
      free when its item key is absent. */
  function FreeIdSearch(t: Table, start: nat, cur: nat, budget: nat, maxId: nat): (r: (nat, Result<u64, Error>))
    requires 2 <= maxId <= U64_LIMIT
    ensures r.1.Success? ==> r.1.value == r.0 && 1 <= r.0 < maxId && r.0 != start && ItemKey(r.1.value).Dump() !in t
    ensures r.1.Failure? ==> r.1.error == NoFreeIdentificator
    decreases budget
  {
    if budget == 0 then (cur, Failure(NoFreeIdentificator))
    else
      var c := NextCounter(cur, maxId);
      if c == start then (c, Failure(NoFreeIdentificator))
      else if ItemKey(c).Dump() !in t then (c, Success(c as u64))
      else FreeIdSearch(t, start, c, budget - 1, maxId)
  }

  /** One probe of FreeIdSearch, case by case. */
  lemma FreeIdSearchStep(t: Table, start: nat, cur: nat, budget: nat, maxId: nat)
    requires 2 <= maxId <= U64_LIMIT && budget > 0
    ensures NextCounter(cur, maxId) == start ==>
      FreeIdSearch(t, start, cur, budget, maxId) == (start, Failure(NoFreeIdentificator))
    ensures NextCounter(cur, maxId) != start && ItemKey(NextCounter(cur, maxId) as u64).Dump() !in t ==>
      FreeIdSearch(t, start, cur, budget, maxId) == (NextCounter(cur, maxId), Success(NextCounter(cur, maxId) as u64))
    ensures NextCounter(cur, maxId) != start && ItemKey(NextCounter(cur, maxId) as u64).Dump() in t ==>
      FreeIdSearch(t, start, cur, budget, maxId) == FreeIdSearch(t, start, NextCounter(cur, maxId), budget - 1, maxId)
  {
  }

  /** How many counter steps lead from `cur` to `id` (at least one). */
  function Steps(cur: nat, id: nat, maxId: nat): nat
    requires 1 <= id < maxId
  {
    if 1 <= cur < maxId then (if id > cur then id - cur else id + (maxId - 1) - cur)
    else id
  }

  lemma StepsAfterStep(cur: nat, id: nat, maxId: nat)
    requires 2 <= maxId && 1 <= id < maxId && NextCounter(cur, maxId) != id
    ensures Steps(cur, id, maxId) >= 2
    ensures Steps(NextCounter(cur, maxId), id, maxId) == Steps(cur, id, maxId) - 1
  {
  }

  /** Every id the loop reaches before stopping was taken. */
  lemma {:induction false} SearchVisits(t: Table, start: nat, cur: nat, budget: nat, maxId: nat, id: nat)
    requires 2 <= maxId <= U64_LIMIT && 1 <= id < maxId && id != start
    requires FreeIdSearch(t, start, cur, budget, maxId).1.Failure?
    requires Steps(cur, id, maxId) <= budget
    requires 1 <= start < maxId ==> Steps(cur, id, maxId) < Steps(cur, start, maxId)
    ensures ItemKey(id).Dump() in t
    decreases budget
  {
    var c := NextCounter(cur, maxId);
    if c != id {
      StepsAfterStep(cur, id, maxId);
      if 1 <= start < maxId {
        StepsAfterStep(cur, start, maxId);
      }
      SearchVisits(t, start, c, budget - 1, maxId, id);
    }
  }

  lemma StepsToNext(cur: nat, maxId: nat)
    requires 2 <= maxId
    ensures Steps(cur, NextCounter(cur, maxId), maxId) == 1
  {
  }

  /** On success every id the loop passes before the one it returns was
      taken: the id found is the first free one after the counter. */
  lemma {:induction false} FoundIsFirst(t: Table, start: nat, cur: nat, budget: nat, maxId: nat, id: nat)
    requires 2 <= maxId <= U64_LIMIT && 1 <= id < maxId
    requires FreeIdSearch(t, start, cur, budget, maxId).1.Success?
    requires Steps(cur, id, maxId) < Steps(cur, FreeIdSearch(t, start, cur, budget, maxId).0, maxId)
    ensures ItemKey(id).Dump() in t
    decreases budget
  {
    var c := NextCounter(cur, maxId);
    var found := FreeIdSearch(t, start, cur, budget, maxId).0;
    FreeIdSearchStep(t, start, cur, budget, maxId);
    StepsToNext(cur, maxId);
    if c != id {
      StepsAfterStep(cur, id, maxId);
      StepsAfterStep(cur, found, maxId);
      FoundIsFirst(t, start, c, budget - 1, maxId, id);
    }
  }

  /** When __get_next_item_id gives up after a full round, every id in
      [1, maxId) other than the start value is taken. */
  lemma NoFreeIdMeansFull(t: Table, start: nat, maxId: nat)
    requires 2 <= maxId <= U64_LIMIT
    requires FreeIdSearch(t, start, start, maxId - 1, maxId).1.Failure?
    ensures forall id: nat :: 1 <= id < maxId && id != start ==> ItemKey(id).Dump() in t
  {
    forall id: nat | 1 <= id < maxId && id != start
      ensures ItemKey(id).Dump() in t
    {
      SearchVisits(t, start, start, maxId - 1, maxId, id);
    }
  }

  /** The loop exactly as written: no probe budget, so `None` means "still
      looping after `fuel` probes". */
  function FreeIdSearchAsWritten(t: Table, start: nat, cur: nat, fuel: nat, maxId: nat): (r: Option<(nat, Result<u64, Error>)>)
    requires 2 <= maxId <= U64_LIMIT
    ensures r.Some? && r.value.1.Success? ==>
      r.value.1.value == r.value.0 && 1 <= r.value.0 < maxId && r.value.0 != start && ItemKey(r.value.1.value).Dump() !in t
    ensures r.Some? && r.value.1.Failure? ==> r.value.0 == start && r.value.1.error == NoFreeIdentificator
    decreases fuel
  {
    if fuel == 0 then None
    else
      var c := NextCounter(cur, maxId);
      if c == start then Some((c, Failure(NoFreeIdentificator)))
      else if ItemKey(c).Dump() !in t then Some((c, Success(c as u64)))
      else FreeIdSearchAsWritten(t, start, c, fuel - 1, maxId)
  }

  /** The counter never returns to 0, so from a fresh counter (0) on a table
      whose ids are all taken the loop as written never ends. */
  lemma {:induction false} AsWrittenNeverStopsFromZero(t: Table, cur: nat, fuel: nat, maxId: nat)
    requires 2 <= maxId <= U64_LIMIT
    requires forall id: nat :: 1 <= id < maxId ==> ItemKey(id).Dump() in t
    ensures FreeIdSearchAsWritten(t, 0, cur, fuel, maxId) == None
    decreases fuel
  {
    if fuel > 0 {
      AsWrittenNeverStopsFromZero(t, NextCounter(cur, maxId), fuel - 1, maxId);
    }
  }

  /** With the probe budget the same table from the same counter raises
      NoFreeIdentificator. */
  lemma BoundedSearchStopsFromZero(t: Table, maxId: nat)
    requires 2 <= maxId <= U64_LIMIT
    requires forall id: nat :: 1 <= id < maxId ==> ItemKey(id).Dump() in t
    ensures FreeIdSearch(t, 0, 0, maxId - 1, maxId).1 == Failure(NoFreeIdentificator)
  {
  }

  /** __register_item_by_id(id) with check_only unset: the reservation. */
  function Reserved(t: Table, id: u64): Table
  {
    t[ItemKey(id).Dump() := RESERVE_ITEM]
  }

  /** cancel_item_id_reserve(id) */
  function Cancelled(t: Table, id: u64): (r: Table)
    ensures r.Keys <= t.Keys
  {
    var k := ItemKey(id).Dump();
    if k in t && t[k] == RESERVE_ITEM then t - {k} else t
  }

  /** Cancelling a reservation just made by generate_item_id gives back the
      table as it was. */
  lemma CancelUndoesReserve(t: Table, last: nat, maxId: nat)
    requires 2 <= maxId <= U64_LIMIT
    requires FreeIdSearch(t, last, last, maxId - 1, maxId).1.Success?
    ensures var id := FreeIdSearch(t, last, last, maxId - 1, maxId).1.value;
      Cancelled(Reserved(t, id), id) == t
  {
    var id := FreeIdSearch(t, last, last, maxId - 1, maxId).1.value;
    var k := ItemKey(id).Dump();
    assert k !in t;
    assert Reserved(t, id) - {k} == t;
  }

  /** Cancelling never removes a record that is not a reservation. */
  lemma CancelKeepsRecords(t: Table, id: u64)
    requires ItemKey(id).Dump() in t && t[ItemKey(id).Dump()] != RESERVE_ITEM
    ensures Cancelled(t, id) == t
  {
  }

  // ---------------------------------------------------------------------------
  // Writes: __append_addr_child, __remove_addr_child, __update_addr,
  // __update_addr_item
  // ---------------------------------------------------------------------------

  /** The blocks with `id` appended to the first block owned by `owner`. */
  function AddChildToOwner(items: seq<ChildAddrList>, owner: u64, id: u64): (r: seq<ChildAddrList>)
    ensures |r| == |items| && Owners(r) == Owners(items)
    ensures var k := OwnerIndex(items, owner);
      forall i :: 0 <= i < |items| && i != k ==> r[i] == items[i]
    ensures var k := OwnerIndex(items, owner);
      k < |items| ==> r[k].childIds == items[k].childIds + [id]
  {
    var k := OwnerIndex(items, owner);
    if k == |items| then items else items[k := items[k].AppendAddr(id)]
  }

  /** __append_addr_child(dir, id) */
  function ChildAdded(t: Table, env: Env, dir: ItemMD, id: u64): (r: Outcome<()>)
    requires dir.itemId.Some?
    ensures r.result.Failure? ==> r.table == t
    ensures r.result.Success? ==> r.table.Keys == t.Keys + {DirKey(env, dir).Dump()}
  {
    var k := DirKey(env, dir);
    if Holds(t, k) then
      match ParseItems(t[k.Dump()])
      case Failure(e) => Outcome(t, Failure(e))
      case Success(items) => Put(t, k, AddChildToOwner(items, dir.itemId.value, id))
    else Put(t, k, [ChildAddrList(dir.itemId.value, [id])])
  }

  /** The blocks with `id` removed from every block owned by `owner`; raises
      at the first such block that does not list it. */
  function RemoveFromOwners(items: seq<ChildAddrList>, owner: u64, id: u64): (r: Result<seq<ChildAddrList>, Error>)
    ensures r.Success? <==> forall i :: 0 <= i < |items| && items[i].itemId == owner ==> id in items[i].childIds
    ensures r.Failure? ==> r.error == NoSuchId
    ensures r.Success? ==> |r.value| == |items| && forall i :: 0 <= i < |items| ==>
      r.value[i] == (if items[i].itemId == owner then items[i].Remove(id).value else items[i])
  {
    if items == [] then Success([])
    else
      var first :- if items[0].itemId == owner then items[0].Remove(id) else Success(items[0]);
      var rest :- RemoveFromOwners(items[1..], owner, id);
      assert forall i :: 1 <= i < |items| ==> items[1..][i - 1] == items[i];
      Success([first] + rest)
  }

  /** __remove_addr_child(dir, id) */
  function ChildRemoved(t: Table, env: Env, dir: ItemMD, id: u64): (r: Outcome<()>)
    requires dir.itemId.Some?
    ensures r.result.Failure? ==> r.table == t
    ensures r.result.Success? ==> Holds(t, DirKey(env, dir)) && r.table.Keys == t.Keys
  {
    var k := DirKey(env, dir);
    if !Holds(t, k) then Outcome(t, Failure(NoAddressRecord))
    else
      match ParseItems(t[k.Dump()])
      case Failure(e) => Outcome(t, Failure(e))
      case Success(items) =>
        match RemoveFromOwners(items, dir.itemId.value, id)
        case Failure(e) => Outcome(t, Failure(e))
        case Success(items') => Put(t, k, items')
  }

  /** __update_addr(a_key, id, save_a_key).  Without save_a_key an empty block
      for `id` is appended to a_key's record.  With one, the first block owned
      by `id` moves from a_key's record to the end of save_a_key's; the record
      left behind is written back, or deleted once it is empty.  (`a_key !=
      save_a_key` compares Key objects, which have no __eq__, so the move
      happens whenever save_a_key is given.) */
  function AddrUpdated(t: Table, aKey: Key, id: u64, saveKey: Option<Key>): (r: Outcome<()>)
    ensures r.result.Success? ==> AddressBlocks(t, aKey).Success?
    ensures r.result.Success? && saveKey.Some? ==>
      OwnerIndex(AddressBlocks(t, aKey).value, id) < |AddressBlocks(t, aKey).value| && saveKey.value.Dump() in r.table
    ensures saveKey.None? ==> (r.result.Failure? ==> r.table == t) && (r.result.Success? ==> r.table.Keys == t.Keys + {aKey.Dump()})
  {
    match AddressBlocks(t, aKey)
    case Failure(e) => Outcome(t, Failure(e))
    case Success(items) =>
      if saveKey.None? then Put(t, aKey, items + [ChildAddrList(id, [])])
      else
        var k := OwnerIndex(items, id);
        if k == |items| then Outcome(t, Failure(NoSuchId))
        else
          var rest := items[..k] + items[k + 1..];
          var left := if rest == [] then Outcome(t - {aKey.Dump()}, Success(())) else Put(t, aKey, rest);
          if left.result.Failure? then left
          else MoveBlockIn(left.table, saveKey.value, items[k])
  }

  /** The second half of a move: append `moved` to the record at `saveKey`. */
  function MoveBlockIn(t: Table, saveKey: Key, moved: ChildAddrList): (r: Outcome<()>)
    ensures r.result.Failure? ==> r.table == t
    ensures r.result.Success? ==> r.table.Keys == t.Keys + {saveKey.Dump()}
  {
    match AddressBlocks(t, saveKey)
    case Failure(e) => Outcome(t, Failure(e))
    case Success(items) => Put(t, saveKey, items + [moved])
  }

  /** __update_addr exactly as written: when a_key's record still holds other
      blocks after the removal, the shortened list is never written back. */
  function AddrUpdatedAsWritten(t: Table, aKey: Key, id: u64, saveKey: Option<Key>): (r: Outcome<()>)
    ensures r.result.Success? ==> AddressBlocks(t, aKey).Success?
    ensures r.result.Success? && saveKey.Some? ==>
      OwnerIndex(AddressBlocks(t, aKey).value, id) < |AddressBlocks(t, aKey).value| && saveKey.value.Dump() in r.table
    ensures saveKey.None? ==> (r.result.Failure? ==> r.table == t) && (r.result.Success? ==> r.table.Keys == t.Keys + {aKey.Dump()})
  {
    match AddressBlocks(t, aKey)
    case Failure(e) => Outcome(t, Failure(e))
    case Success(items) =>
      if saveKey.None? then Put(t, aKey, items + [ChildAddrList(id, [])])
      else
        var k := OwnerIndex(items, id);
        if k == |items| then Outcome(t, Failure(NoSuchId))
        else
          var rest := items[..k] + items[k + 1..];
          var t1 := if rest == [] then t - {aKey.Dump()} else t;
          MoveBlockIn(t1, saveKey.value, items[k])
  }

  /** __update_addr_item(old_md, new_md), with the item's block moved to
      the new (parent, name hash) record whenever the name or the parent
      changes (see AddrItemUpdatedAsWritten for the code as written). */
  function AddrItemUpdated(t: Table, env: Env, before: ItemMD, after: ItemMD): (r: Outcome<()>)
    requires before.itemId.Some?
    ensures before.name == after.name && before.parentDirId == after.parentDirId ==> r == Outcome(t, Success(()))
    ensures r.result.Success? && (before.name != after.name || before.parentDirId != after.parentDirId) ==>
      NameKey(env, after.parentDirId, after.name).Dump() in r.table
  {
    var id := before.itemId.value;
    var moved :=
      if before.name != after.name || before.parentDirId != after.parentDirId then
        AddrUpdated(t, NameKey(env, before.parentDirId, before.name), id, Some(NameKey(env, after.parentDirId, after.name)))
      else Outcome(t, Success(()));
    if moved.result.Failure? || before.parentDirId == after.parentDirId then moved
    else Reparented(moved.table, env, before.parentDirId, after.parentDirId, id)
  }

  /** __update_addr_item exactly as written: the block moves only on a
      rename, so a move to another directory under the same name leaves it
      in the old parent's (parent, name hash) record. */
  function AddrItemUpdatedAsWritten(t: Table, env: Env, before: ItemMD, after: ItemMD): (r: Outcome<()>)
    requires before.itemId.Some?
    ensures before.name == after.name && before.parentDirId == after.parentDirId ==> r == Outcome(t, Success(()))
    ensures r.result.Success? && before.name != after.name ==> NameKey(env, after.parentDirId, after.name).Dump() in r.table
  {
    var id := before.itemId.value;
    var renamed :=
      if before.name != after.name then
        AddrUpdated(t, NameKey(env, before.parentDirId, before.name), id, Some(NameKey(env, after.parentDirId, after.name)))
      else Outcome(t, Success(()));
    if renamed.result.Failure? || before.parentDirId == after.parentDirId then renamed
    else Reparented(renamed.table, env, before.parentDirId, after.parentDirId, id)
  }

  /** The parent change of __update_addr_item: `id` leaves the old parent's
      list and joins the new parent's. */
  function Reparented(t: Table, env: Env, oldParent: u64, newParent: u64, id: u64): (r: Outcome<()>)
    ensures t.Keys <= r.table.Keys
    ensures r.result.Success? ==> ItemMDOf(t, env, oldParent).Success? && ItemKey(newParent).Dump() in r.table
  {
    match ItemMDOf(t, env, oldParent)
    case Failure(e) => Outcome(t, Failure(e))
    case Success(oldDir) =>
      var removed := ChildRemoved(t, env, oldDir, id);
      if removed.result.Failure? then removed
      else
        match ItemMDOf(removed.table, env, newParent)
        case Failure(e) => Outcome(removed.table, Failure(e))
        case Success(newDir) => ChildAdded(removed.table, env, newDir, id)
  }

  // ---------------------------------------------------------------------------
  // The public writes: append, update, remove
  // ---------------------------------------------------------------------------

  /** An outcome whose failure is carried over to another result type. */
  function Failed<T, U>(o: Outcome<T>): (r: Outcome<U>)
    requires o.result.Failure?
  {
    Outcome(o.table, Failure(o.result.error))
  }

  /** append, from the point where the directory `dir` is known. */
  function AppendedUnder(t: Table, env: Env, md: ItemMD, dir: ItemMD, now: int): (r: Outcome<ItemMD>)
    requires dir.itemId.Some?
    ensures t.Keys <= r.table.Keys
    ensures r.result.Success? ==>
      r.result.value == md && md.itemId.Some? &&
      ItemKey(md.itemId.value).Dump() in r.table && DirKey(env, dir).Dump() in r.table &&
      NameKey(env, dir.itemId.value, md.name).Dump() in r.table
  {
    match NameTaken(t, env, md.parentDirId, md.name)
    case Failure(e) => Outcome(t, Failure(e))
    case Success(taken) =>
      if taken then Outcome(t, Failure(AlreadyExists))
      // Key(KT_ITEM, None).dump() raises in struct.pack
      else if md.itemId.None? then Outcome(t, Failure(StructError))
      else
        var id := md.itemId.value;
        var iKey := ItemKey(id).Dump();
        if iKey in t && t[iKey] != [] && t[iKey] != RESERVE_ITEM then Outcome(t, Failure(AlreadyExists))
        else
          var listed := ChildAdded(t, env, dir, id);
          if listed.result.Failure? then Failed(listed)
          else
            var addressed := AddrUpdated(listed.table, NameKey(env, dir.itemId.value, md.name), id, None);
            if addressed.result.Failure? then Failed(addressed)
            else RecordsWritten(addressed.table, env, md, dir, now)
  }

  /** The last writes of append: the item record, then the parent's record
      with a new modification time unless the parent is the root. */
  function RecordsWritten(t: Table, env: Env, md: ItemMD, dir: ItemMD, now: int): (r: Outcome<ItemMD>)
    requires md.itemId.Some? && dir.itemId.Some?
    ensures t.Keys <= r.table.Keys
    ensures forall k :: k in t && k != ItemKey(md.itemId.value).Dump() && k != ItemKey(dir.itemId.value).Dump() ==>
      r.table[k] == t[k]
    ensures r.result.Success? ==> r.result.value == md && ItemKey(md.itemId.value).Dump() in r.table
  {
    match PadMD(env, md)
    case Failure(e) => Outcome(t, Failure(e))
    case Success(rec) =>
      var t1 := t[ItemKey(md.itemId.value).Dump() := rec];
      if dir.itemId.value == ROOT_ID then Outcome(t1, Success(md))
      else
        match PadMD(env, dir.(modified := now))
        case Failure(e) => Outcome(t1, Failure(e))
        case Success(drec) => Outcome(t1[ItemKey(dir.itemId.value).Dump() := drec], Success(md))
  }

  /** append(path, md, item_id): the counter after the call and the outcome. */
  function Appended(t: Table, env: Env, last: nat, maxId: nat, path: string, md: ItemMD,
                    itemIdArg: Option<u64>, now: int): (r: (nat, Outcome<ItemMD>))
    requires 2 <= maxId <= U64_LIMIT
    ensures t.Keys <= r.1.table.Keys
    ensures r.1.result.Success? ==>
      r.1.result.value.itemId.Some? && ItemKey(r.1.result.value.itemId.value).Dump() in r.1.table
    ensures path == "" ==> r.0 == last
  {
    if path != "" then
      var found :=
        if itemIdArg.None? || itemIdArg == Some(0) then FreeIdSearch(t, last, last, maxId - 1, maxId)
        else (last, Success(itemIdArg.value));
      match found.1
      case Failure(e) => (found.0, Outcome(t, Failure(e)))
      case Success(id) =>
        match Resolve(t, env, path)
        case Failure(e) => (found.0, Outcome(t, Failure(e)))
        case Success(dir) =>
          (found.0, AppendedUnder(t, env, md.(itemId := Some(id), parentDirId := dir.itemId.value), dir, now))
    else if md.itemId == Some(ROOT_ID) then
      match PadMD(env, md)
      case Failure(e) => (last, Outcome(t, Failure(e)))
      case Success(rec) => (last, Outcome(t[ItemKey(ROOT_ID).Dump() := rec], Success(md)))
    else
      match ItemMDOf(t, env, md.parentDirId)
      case Failure(e) => (last, Outcome(t, Failure(e)))
      case Success(dir) => (last, AppendedUnder(t, env, md, dir, now))
  }

  /** update(md): the metadata as stored, with a new modification time for a
      directory. */
  function Updated(t: Table, env: Env, md: ItemMD, now: int): (r: Outcome<ItemMD>)
    ensures r.result.Success? ==>
      md.itemId.Some? && ItemMDOf(t, env, md.itemId.value).Success? &&
      ItemKey(md.itemId.value).Dump() in r.table && r.result.value.(modified := md.modified) == md
    ensures r.result.Success? && md.isFile ==> r.result.value == md
  {
    if md.itemId.None? then Outcome(t, Failure(MissingItemId))
    else
      match ItemMDOf(t, env, md.itemId.value)
      case Failure(e) => Outcome(t, Failure(e))
      case Success(stored) =>
        var moved := AddrItemUpdated(t, env, stored, md);
        if moved.result.Failure? then Failed(moved)
        else
          var md' := if md.isFile then md else md.(modified := now);
          match PadMD(env, md')
          case Failure(e) => Outcome(moved.table, Failure(e))
          case Success(rec) => Outcome(moved.table[ItemKey(md.itemId.value).Dump() := rec], Success(md'))
  }

  /** remove's check on a directory: its own block in its record must be empty. */
  function EmptyDirCheck(t: Table, aKey: Key, id: u64): (r: Result<(), Error>)
    ensures r.Success? ==>
      AddressBlocks(t, aKey).Success? &&
      var items := AddressBlocks(t, aKey).value;
      OwnerIndex(items, id) < |items| ==> items[OwnerIndex(items, id)].childIds == []
    ensures AddressBlocks(t, aKey).Success? && r.Failure? ==> r.error == NotEmpty
  {
    var items :- AddressBlocks(t, aKey);
    var k := OwnerIndex(items, id);
    if k < |items| && |items[k].childIds| > 0 then Failure(NotEmpty) else Success(())
  }

  /** remove(md) */
  function Removed(t: Table, env: Env, md: ItemMD): (r: Outcome<()>)
    ensures r.table.Keys <= t.Keys
    ensures r.result.Success? ==>
      md.itemId.Some? && ItemKey(md.itemId.value).Dump() in t &&
      ItemKey(md.itemId.value).Dump() !in r.table && NameKey(env, md.parentDirId, md.name).Dump() !in r.table
    ensures r.result.Success? && !md.isFile ==>
      EmptyDirCheck(t, NameKey(env, md.parentDirId, md.name), md.itemId.value).Success?
  {
    if md.itemId.None? then Outcome(t, Failure(MissingItemId))
    else
      match NameTaken(t, env, md.parentDirId, md.name)
      case Failure(e) => Outcome(t, Failure(e))
      case Success(taken) =>
        if !taken then Outcome(t, Failure(NoMetadata))
        else
          var id := md.itemId.value;
          var aKey := NameKey(env, md.parentDirId, md.name);
          match (if md.isFile then Success(()) else EmptyDirCheck(t, aKey, id))
          case Failure(e) => Outcome(t, Failure(e))
          case Success(_) =>
            match ItemMDOf(t, env, md.parentDirId)
            case Failure(e) => Outcome(t, Failure(e))
            case Success(dir) =>
              var unlisted := ChildRemoved(t, env, dir, id);
              if unlisted.result.Failure? then unlisted
              else KeysDeleted(unlisted.table, aKey.Dump(), ItemKey(id).Dump())
  }

  /** `del db[k1]; del db[k2]`, each raising KeyError on a missing key. */
  function KeysDeleted(t: Table, k1: bytes, k2: bytes): (r: Outcome<()>)
    ensures r.result.Success? ==> r.table == t - {k1, k2}
    ensures r.table.Keys <= t.Keys
  {
    if k1 !in t then Outcome(t, Failure(KeyError))
    else if k2 !in t - {k1} then Outcome(t - {k1}, Failure(KeyError))
    else Outcome(t - {k1} - {k2}, Success(()))
  }
}
