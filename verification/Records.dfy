/** The byte formats of the metadata table (nimbus_client/core/metadata_file.py):
    table keys, the per-name address records made of ChildAddrList blocks, and
    the padded item records. */
module Records {
  import opened Wrappers
  import opened Exceptions
  import opened Bytes

  // ---------------------------------------------------------------------------
  // Table keys: struct '<QiB' = parent_id (u64), item_hash (i32), key_type (u8)
  // ---------------------------------------------------------------------------

  const KT_ADDR: byte := 1
  const KT_ITEM: byte := 2
  const KEY_LEN: nat := 13

  datatype Key = Key(keyType: byte, parentId: u64, itemHash: i32)
  {
    function Dump(): (r: bytes)
      ensures |r| == KEY_LEN
      ensures r[KEY_LEN - 1] == keyType
    {
      LittleEndian(parentId, 8) + LittleEndian(I32Bits(itemHash), 4) + [keyType]
    }

    /** struct.unpack raises unless the buffer has exactly KEY_LEN bytes. */
    static function FromDump(s: bytes): (r: Result<Key, Error>)
      ensures r.Success? <==> |s| == KEY_LEN
    {
      if |s| != KEY_LEN then Failure(StructError)
      else Success(Key(s[12], FromLittleEndian(s[..8]), I32FromBits(FromLittleEndian(s[8..12]))))
    }
  }

  /** Key(KT_ITEM, item_id): the key of an item record (item_hash defaults to 0). */
  function ItemKey(id: u64): Key
  {
    Key(KT_ITEM, id, 0)
  }

  /** Key(KT_ADDR, parent_id, hash(name)): the key of an address record. */
  function AddrKey(parentId: u64, nameHash: i32): Key
  {
    Key(KT_ADDR, parentId, nameHash)
  }

  lemma KeyRoundTrip(k: Key)
    ensures Key.FromDump(k.Dump()) == Success(k)
  {
    var d := k.Dump();
    assert d[..8] == LittleEndian(k.parentId, 8);
    assert d[8..12] == LittleEndian(I32Bits(k.itemHash), 4);
    LittleEndianRoundTrip(k.parentId, 8);
    LittleEndianRoundTrip(I32Bits(k.itemHash), 4);
  }

  /** Two keys share a table slot only if they are the same key. */
  lemma KeyDumpInjective(k1: Key, k2: Key)
    ensures k1.Dump() == k2.Dump() <==> k1 == k2
  {
    KeyRoundTrip(k1);
    KeyRoundTrip(k2);
  }

  // ---------------------------------------------------------------------------
  // ChildAddrList: header '<IIQ' = b_size, a_size, item_id; then one '<Q' per
  // child id; then spaces up to b_size, a multiple of PADDING_SIZE.
  // ---------------------------------------------------------------------------

  const HDR_LEN: nat := 16
  const ADDR_LEN: nat := 8
  const PADDING_SIZE: nat := 256

  /** The 16-byte block header. */
  function BlockHeader(bSize: u32, aSize: u32, itemId: u64): (r: bytes)
    ensures |r| == HDR_LEN
  {
    LittleEndian(bSize, 4) + LittleEndian(aSize, 4) + LittleEndian(itemId, 8)
  }

  /** The child ids, eight little-endian bytes each, in order. */
  function IdsEncoding(ids: seq<u64>): (r: bytes)
    ensures |r| == |ids| * ADDR_LEN
  {
    if ids == [] then [] else IdsEncoding(ids[..|ids| - 1]) + LittleEndian(ids[|ids| - 1], 8)
  }

  /** The ids read back from a run of whole eight-byte fields. */
  function IdsDecoding(raw: bytes): (ids: seq<u64>)
    requires |raw| % ADDR_LEN == 0
    ensures |ids| * ADDR_LEN == |raw|
  {
    if raw == [] then [] else IdsDecoding(raw[..|raw| - ADDR_LEN]) + [FromLittleEndian(raw[|raw| - ADDR_LEN..])]
  }

  lemma IdsLengthAligned(ids: seq<u64>)
    ensures |IdsEncoding(ids)| % ADDR_LEN == 0
  {
    assert |IdsEncoding(ids)| == |ids| * ADDR_LEN;
  }

  lemma {:induction false} IdsRoundTrip(ids: seq<u64>)
    ensures IdsDecoding(IdsEncoding(ids)) == ids
  {
    if ids != [] {
      var front, last := ids[..|ids| - 1], ids[|ids| - 1];
      var e := IdsEncoding(ids);
      assert e == IdsEncoding(front) + LittleEndian(last, 8);
      assert e[..|e| - ADDR_LEN] == IdsEncoding(front);
      assert e[|e| - ADDR_LEN..] == LittleEndian(last, 8);
      IdsRoundTrip(front);
      LittleEndianRoundTrip(last, 8);
      assert front + [last] == ids;
    }
  }

  datatype ChildAddrList = ChildAddrList(itemId: u64, childIds: seq<u64>)
  {
    /** a_size: header plus the id fields. */
    function ASize(): nat
    {
      |childIds| * ADDR_LEN + HDR_LEN
    }

    /** b_size: a_size rounded up to the next multiple of PADDING_SIZE, always
        leaving at least one byte of padding. */
    function BSize(): (b: nat)
      ensures b % PADDING_SIZE == 0
      ensures ASize() < b <= ASize() + PADDING_SIZE
    {
      (ASize() / PADDING_SIZE + 1) * PADDING_SIZE
    }

    /** What ChildAddrList.dump returns; struct.pack raises once b_size no
        longer fits its 32-bit header field. */
    function Encoding(): (r: Result<bytes, Error>)
      ensures r.Success? <==> BSize() < 0x1_0000_0000
      ensures r.Success? ==> |r.value| == BSize() && |r.value| % PADDING_SIZE == 0
    {
      if BSize() >= 0x1_0000_0000 then Failure(StructError)
      else Success(BlockHeader(BSize(), ASize(), itemId) + IdsEncoding(childIds) + Spaces(BSize() - ASize()))
    }

    /** ChildAddrList.dump: the header, then the ids appended one by one, then the padding. */
    method Dump() returns (r: Result<bytes, Error>)
      ensures r == Encoding()
    {
      var aSize := |childIds| * ADDR_LEN + HDR_LEN;
      var bSize := (aSize / PADDING_SIZE + 1) * PADDING_SIZE;
      if bSize >= 0x1_0000_0000 {
        return Failure(StructError);
      }
      var padSize := bSize - aSize;
      var hdr := BlockHeader(bSize, aSize, itemId);
      var raw: bytes := [];
      for i := 0 to |childIds|
        invariant raw == IdsEncoding(childIds[..i])
      {
        assert childIds[..i + 1][..i] == childIds[..i];
        raw := raw + LittleEndian(childIds[i], 8);
      }
      assert childIds[..|childIds|] == childIds;
      return Success(hdr + raw + Spaces(padSize));
    }

    /** ChildAddrList.remove: drop the first occurrence of `id`; raises when absent. */
    function Remove(id: u64): (r: Result<ChildAddrList, Error>)
      ensures r.Failure? <==> id !in childIds
      ensures r.Failure? ==> r.error == NoSuchId
      ensures r.Success? ==> r.value.itemId == itemId
      ensures r.Success? ==>
        exists k :: 0 <= k < |childIds| && childIds[k] == id && id !in childIds[..k]
                    && r.value.childIds == childIds[..k] + childIds[k + 1..]
    {
      var k := IndexOf(childIds, id);
      if k == |childIds| then Failure(NoSuchId)
      else
        assert id !in childIds[..k];
        Success(ChildAddrList(itemId, childIds[..k] + childIds[k + 1..]))
    }

    /** append_addr */
    function AppendAddr(id: u64): ChildAddrList
    {
      ChildAddrList(itemId, childIds + [id])
    }
  }

  /** ChildAddrList.from_dump: the block at the front of `dumped` and the bytes
      after it (from offset b_size on). */
  function ParseBlock(dumped: bytes): (r: Result<(ChildAddrList, bytes), Error>)
    ensures |dumped| < HDR_LEN ==> r.Failure?
    ensures r.Success? ==> |r.value.0.childIds| * ADDR_LEN + HDR_LEN <= |dumped|
    ensures r.Success? ==> |r.value.1| <= |dumped| && r.value.1 == dumped[|dumped| - |r.value.1|..]
  {
    if |dumped| < HDR_LEN then Failure(StructError)
    else
      var bSize := FromLittleEndian(dumped[..4]);
      var aSize := FromLittleEndian(dumped[4..8]);
      var raw := Slice(dumped, HDR_LEN, aSize);
      if |raw| % ADDR_LEN != 0 then Failure(StructError)
      else Success((ChildAddrList(FromLittleEndian(dumped[8..16]), IdsDecoding(raw)), Drop(dumped, bSize)))
  }

  /** ChildAddrList.from_dump, with its cursor loop over the id fields. */
  method BlockFromDump(dumped: bytes) returns (r: Result<(ChildAddrList, bytes), Error>)
    ensures r == ParseBlock(dumped)
  {
    if |dumped| < HDR_LEN {
      return Failure(StructError);
    }
    var bSize := FromLittleEndian(dumped[..4]);
    var aSize := FromLittleEndian(dumped[4..8]);
    var itemId := FromLittleEndian(dumped[8..16]);
    var raw := Slice(dumped, HDR_LEN, aSize);
    var ids: seq<u64> := [];
    var cur := 0;
    while cur < |raw|
      invariant 0 <= cur <= |raw| && cur % ADDR_LEN == 0
      invariant ids == IdsDecoding(raw[..cur])
    {
      if cur + ADDR_LEN > |raw| {
        PartialField(cur, |raw|);
        ParseBlockMisaligned(dumped);
        return Failure(StructError);
      }
      IdsDecodingSnoc(raw, cur);
      WholeField(cur);
      ids := ids + [FromLittleEndian(raw[cur..cur + ADDR_LEN])];
      cur := cur + ADDR_LEN;
    }
    assert raw[..cur] == raw;
    ParseBlockOf(dumped, bSize, aSize, itemId, ids, Drop(dumped, bSize));
    return Success((ChildAddrList(itemId, ids), Drop(dumped, bSize)));
  }

  /** A length that ends inside a field is not a whole number of fields. */
  lemma PartialField(cur: nat, n: nat)
    requires cur % ADDR_LEN == 0 && cur < n < cur + ADDR_LEN
    ensures n % ADDR_LEN != 0
  {
  }

  /** One more field keeps the cursor on a field boundary. */
  lemma WholeField(cur: nat)
    requires cur % ADDR_LEN == 0
    ensures (cur + ADDR_LEN) % ADDR_LEN == 0
  {
  }

  /** A block whose id fields do not come in whole eight-byte units does not decode. */
  lemma ParseBlockMisaligned(d: bytes)
    requires |d| >= HDR_LEN && |Slice(d, HDR_LEN, FromLittleEndian(d[4..8]))| % ADDR_LEN != 0
    ensures ParseBlock(d) == Failure(StructError)
  {
  }

  /** Decoding one more eight-byte field appends one id. */
  lemma IdsDecodingSnoc(raw: bytes, cur: nat)
    requires cur % ADDR_LEN == 0 && cur + ADDR_LEN <= |raw|
    ensures IdsDecoding(raw[..cur + ADDR_LEN]) == IdsDecoding(raw[..cur]) + [FromLittleEndian(raw[cur..cur + ADDR_LEN])]
  {
    var chunk := raw[..cur + ADDR_LEN];
    assert chunk[..|chunk| - ADDR_LEN] == raw[..cur];
    assert chunk[|chunk| - ADDR_LEN..] == raw[cur..cur + ADDR_LEN];
  }

  /** ChildAddrList.header_from_dump: only the item id, and the bytes after the block. */
  function ParseHeader(dumped: bytes): (r: Result<(u64, bytes), Error>)
    ensures r.Success? <==> |dumped| >= HDR_LEN
    ensures ParseBlock(dumped).Success? ==>
      r == Success((ParseBlock(dumped).value.0.itemId, ParseBlock(dumped).value.1))
  {
    if |dumped| < HDR_LEN then Failure(StructError)
    else Success((FromLittleEndian(dumped[8..16]), Drop(dumped, FromLittleEndian(dumped[..4]))))
  }

  /** Decoding a dumped block, followed by anything, gives back the block and
      exactly what followed it; the header alone gives its item id. */
  lemma BlockRoundTrip(l: ChildAddrList, rest: bytes)
    requires l.Encoding().Success?
    ensures ParseBlock(l.Encoding().value + rest) == Success((l, rest))
    ensures ParseHeader(l.Encoding().value + rest) == Success((l.itemId, rest))
  {
    var d := l.Encoding().value + rest;
    BlockFields(l, rest, d);
    var raw := Slice(d, HDR_LEN, l.ASize());
    IdsLengthAligned(l.childIds);
    IdsRoundTrip(l.childIds);
    ParseBlockOf(d, l.BSize(), l.ASize(), l.itemId, l.childIds, rest);
  }

  /** ParseBlock and ParseHeader, given what the fields of `d` read back as. */
  lemma ParseBlockOf(d: bytes, bSize: nat, aSize: nat, id: u64, ids: seq<u64>, rest: bytes)
    requires |d| >= HDR_LEN
    requires FromLittleEndian(d[..4]) == bSize && FromLittleEndian(d[4..8]) == aSize
    requires FromLittleEndian(d[8..16]) == id
    requires |Slice(d, HDR_LEN, aSize)| % ADDR_LEN == 0
    requires IdsDecoding(Slice(d, HDR_LEN, aSize)) == ids
    requires Drop(d, bSize) == rest
    ensures ParseBlock(d) == Success((ChildAddrList(id, ids), rest))
    ensures ParseHeader(d) == Success((id, rest))
  {
  }

  /** Where each field of a dumped block sits, and what it reads back as. */
  lemma BlockFields(l: ChildAddrList, rest: bytes, d: bytes)
    requires l.Encoding().Success? && d == l.Encoding().value + rest
    ensures |d| >= HDR_LEN
    ensures FromLittleEndian(d[..4]) == l.BSize()
    ensures FromLittleEndian(d[4..8]) == l.ASize()
    ensures FromLittleEndian(d[8..16]) == l.itemId
    ensures Slice(d, HDR_LEN, l.ASize()) == IdsEncoding(l.childIds)
    ensures Drop(d, l.BSize()) == rest
  {
    var hdr := BlockHeader(l.BSize(), l.ASize(), l.itemId);
    var body := IdsEncoding(l.childIds) + Spaces(l.BSize() - l.ASize()) + rest;
    assert d == hdr + body;
    HeaderFields(l.BSize(), l.ASize(), l.itemId, body);
    assert d[HDR_LEN..] == body;
    assert body[..l.ASize() - HDR_LEN] == IdsEncoding(l.childIds);
    assert body[l.BSize() - HDR_LEN..] == rest;
  }

  /** The three header fields read back from the front of a block. */
  lemma HeaderFields(bSize: u32, aSize: u32, itemId: u64, body: bytes)
    ensures var d := BlockHeader(bSize, aSize, itemId) + body;
      FromLittleEndian(d[..4]) == bSize && FromLittleEndian(d[4..8]) == aSize &&
      FromLittleEndian(d[8..16]) == itemId
  {
    var d := BlockHeader(bSize, aSize, itemId) + body;
    assert d[..4] == LittleEndian(bSize, 4);
    assert d[4..8] == LittleEndian(aSize, 4);
    assert d[8..16] == LittleEndian(itemId, 8);
    LittleEndianRoundTrip(bSize, 4);
    LittleEndianRoundTrip(aSize, 4);
    LittleEndianRoundTrip(itemId, 8);
  }

  // ---------------------------------------------------------------------------
  // AddressItems: the blocks of all items that share one (parent, name hash)
  // key, concatenated.  Modelled as a sequence of ChildAddrList values.
  // ---------------------------------------------------------------------------

  /** AddressItems.dump: the concatenation of the block dumps, raising at the
      first block that does not fit its header. */
  function EncodeItems(items: seq<ChildAddrList>): (r: Result<bytes, Error>)
  {
    if items == [] then Success([])
    else match items[0].Encoding()
      case Failure(e) => Failure(e)
      case Success(b) =>
        match EncodeItems(items[1..])
        case Failure(e) => Failure(e)
        case Success(t) => Success(b + t)
  }

  /** The blocks dump exactly when every block dumps. */
  lemma {:induction false} EncodeItemsSucceeds(items: seq<ChildAddrList>)
    ensures EncodeItems(items).Success? <==> forall i :: 0 <= i < |items| ==> items[i].Encoding().Success?
    decreases |items|
  {
    if items != [] {
      EncodeItemsSucceeds(items[1..]);
      assert forall i :: 1 <= i < |items| ==> items[1..][i - 1] == items[i];
    }
  }

  /** The blocks' dump is whole padding units, and empty only for no blocks. */
  lemma {:induction false} EncodeItemsPadded(items: seq<ChildAddrList>)
    requires EncodeItems(items).Success?
    ensures |EncodeItems(items).value| % PADDING_SIZE == 0
    ensures |EncodeItems(items).value| == 0 <==> items == []
    decreases |items|
  {
    if items != [] {
      var b, t := items[0].Encoding().value, EncodeItems(items[1..]).value;
      assert EncodeItems(items).value == b + t;
      EncodeItemsPadded(items[1..]);
      assert |b + t| % PADDING_SIZE == 0 by {
        assert |b| == PADDING_SIZE * (|b| / PADDING_SIZE);
        assert |t| == PADDING_SIZE * (|t| / PADDING_SIZE);
        assert |b + t| == PADDING_SIZE * (|b| / PADDING_SIZE + |t| / PADDING_SIZE);
      }
    }
  }

  /** Appending a block appends its dump (the step of AddressItems.dump's loop). */
  lemma {:induction false} EncodeItemsSnoc(items: seq<ChildAddrList>, l: ChildAddrList)
    ensures EncodeItems(items + [l]) ==
      match EncodeItems(items)
      case Failure(e) => Failure(e)
      case Success(p) => (match l.Encoding() case Failure(e) => Failure(e) case Success(b) => Success(p + b))
  {
    if items == [] {
      assert [] + [l] == [l] && [l][1..] == [];
      if l.Encoding().Success? {
        var b := l.Encoding().value;
        assert EncodeItems([l]) == Success(b + []);
        assert b + [] == [] + b;
      }
    } else {
      var all := items + [l];
      assert all[0] == items[0] && all[1..] == items[1..] + [l];
      EncodeItemsSnoc(items[1..], l);
      if items[0].Encoding().Failure? {
        assert EncodeItems(all) == EncodeItems(items);
      } else if EncodeItems(items[1..]).Failure? {
        assert EncodeItems(all).Failure? && EncodeItems(items).Failure?;
        assert EncodeItems(all).error == EncodeItems(items).error;
      } else if l.Encoding().Success? {
        var b, t, c := items[0].Encoding().value, EncodeItems(items[1..]).value, l.Encoding().value;
        assert EncodeItems(all) == Success(b + (t + c));
        assert EncodeItems(items) == Success(b + t);
        assert b + (t + c) == (b + t) + c;
      }
    }
  }

  /** AddressItems.dump, with its loop `s += i_addr.dump()`. */
  method DumpItems(items: seq<ChildAddrList>) returns (r: Result<bytes, Error>)
    ensures r == EncodeItems(items)
  {
    var s: bytes := [];
    for i := 0 to |items|
      invariant EncodeItems(items[..i]) == Success(s)
    {
      var b := items[i].Dump();
      EncodeItemsSnoc(items[..i], items[i]);
      assert items[..i + 1] == items[..i] + [items[i]];
      if b.Failure? {
        EncodeItemsFailurePersists(items, i + 1);
        return Failure(b.error);
      }
      s := s + b.value;
    }
    assert items[..|items|] == items;
    return Success(s);
  }

  /** Once a prefix fails to encode, so does the whole list. */
  lemma {:induction false} EncodeItemsFailurePersists(items: seq<ChildAddrList>, n: nat)
    requires n <= |items| && EncodeItems(items[..n]).Failure?
    ensures EncodeItems(items) == EncodeItems(items[..n])
  {
    if n > 0 {
      if items[0].Encoding().Success? {
        assert items[..n][1..] == items[1..][..n - 1];
        EncodeItemsFailurePersists(items[1..], n - 1);
      }
    }
  }

  /** AddressItems.from_dump: decode blocks until nothing is left.  A block
      whose b_size is 0 leaves the input unchanged and the Python loop never
      ends; the model reports Diverges there. */
  function ParseItems(dumped: bytes): (r: Result<seq<ChildAddrList>, Error>)
    ensures r.Success? ==> |r.value| > 0
    decreases |dumped|
  {
    match ParseBlock(dumped)
    case Failure(e) => Failure(e)
    case Success((l, rest)) =>
      if rest == [] then Success([l])
      else if |rest| >= |dumped| then Failure(Diverges)
      else match ParseItems(rest)
        case Failure(e) => Failure(e)
        case Success(ls) => Success([l] + ls)
  }

  /** The result of decoding, with `items` already taken off the front. */
  function Prefixed<T>(items: seq<T>, r: Result<seq<T>, Error>): Result<seq<T>, Error>
  {
    match r
    case Failure(e) => Failure(e)
    case Success(ls) => Success(items + ls)
  }

  lemma PrefixedEmpty<T>(r: Result<seq<T>, Error>)
    ensures Prefixed([], r) == r
  {
    if r.Success? {
      assert [] + r.value == r.value;
    }
  }

  lemma PrefixedAssoc<T>(a: seq<T>, b: seq<T>, r: Result<seq<T>, Error>)
    ensures Prefixed(a, Prefixed(b, r)) == Prefixed(a + b, r)
  {
    if r.Success? {
      assert a + (b + r.value) == (a + b) + r.value;
    }
  }

  /** One turn of from_dump's loop, as the definition of ParseItems unfolds it. */
  lemma ParseItemsStep(dumped: bytes, l: ChildAddrList, rest: bytes)
    requires ParseBlock(dumped) == Success((l, rest))
    ensures rest == [] ==> ParseItems(dumped) == Success([l])
    ensures rest != [] && |rest| < |dumped| ==> ParseItems(dumped) == Prefixed([l], ParseItems(rest))
  {
  }

  /** One turn of iter_item_ids' loop. */
  lemma IterItemIdsStep(dumped: bytes, id: u64, rest: bytes)
    requires ParseHeader(dumped) == Success((id, rest))
    ensures rest == [] ==> IterItemIds(dumped) == Success([id])
    ensures rest != [] && |rest| < |dumped| ==> IterItemIds(dumped) == Prefixed([id], IterItemIds(rest))
  {
  }

  /** AddressItems.from_dump, with its loop over the shrinking buffer. */
  method ItemsFromDump(dumped: bytes) returns (r: Result<seq<ChildAddrList>, Error>)
    ensures r == ParseItems(dumped)
  {
    var items: seq<ChildAddrList> := [];
    var rest := dumped;
    PrefixedEmpty(ParseItems(dumped));
    while true
      invariant ParseItems(dumped) == Prefixed(items, ParseItems(rest))
      decreases |rest|
    {
      var p := BlockFromDump(rest);
      if p.Failure? {
        return Failure(p.error);
      }
      var (l, rest') := p.value;
      if rest' != [] && |rest'| >= |rest| {
        return Failure(Diverges);
      }
      ParseItemsStep(rest, l, rest');
      if rest' == [] {
        return Success(items + [l]);
      }
      PrefixedAssoc(items, [l], ParseItems(rest'));
      items := items + [l];
      rest := rest';
    }
  }

  /** For a non-empty AddressItems, from_dump(dump(items)) gives the same blocks in the same order. */
  lemma {:induction false} ItemsRoundTrip(items: seq<ChildAddrList>)
    requires |items| > 0 && EncodeItems(items).Success?
    ensures ParseItems(EncodeItems(items).value) == Success(items)
  {
    var l := items[0];
    var t := EncodeItems(items[1..]).value;
    assert EncodeItems(items).value == l.Encoding().value + t;
    ParseItemsCons(l, t);
    if |items| == 1 {
      assert items == [l];
    } else {
      EncodeItemsNonEmpty(items[1..]);
      ItemsRoundTrip(items[1..]);
      assert [l] + items[1..] == items;
    }
  }

  /** Decoding a block's dump followed by more bytes. */
  lemma ParseItemsCons(l: ChildAddrList, t: bytes)
    requires l.Encoding().Success?
    ensures t == [] ==> ParseItems(l.Encoding().value + t) == Success([l])
    ensures t != [] ==> ParseItems(l.Encoding().value + t) == Prefixed([l], ParseItems(t))
  {
    var d := l.Encoding().value + t;
    BlockRoundTrip(l, t);
    assert |t| < |d|;
    ParseItemsStep(d, l, t);
  }

  lemma EncodeItemsNonEmpty(items: seq<ChildAddrList>)
    requires |items| > 0 && EncodeItems(items).Success?
    ensures |EncodeItems(items).value| > 0
  {
    assert EncodeItems(items).value == items[0].Encoding().value + EncodeItems(items[1..]).value;
  }

  /** The owners (item ids) of the blocks, in order. */
  function Owners(items: seq<ChildAddrList>): (ids: seq<u64>)
    ensures |ids| == |items| && forall i :: 0 <= i < |items| ==> ids[i] == items[i].itemId
  {
    seq(|items|, i requires 0 <= i < |items| => items[i].itemId)
  }

  /** AddressItems.iter_item_ids: walk the headers only.  As for from_dump, a
      zero b_size would repeat forever. */
  function IterItemIds(dumped: bytes): (r: Result<seq<u64>, Error>)
    ensures r.Success? ==> 0 < |r.value| <= |dumped|
    ensures r.Success? ==> ParseHeader(dumped).Success? && r.value[0] == ParseHeader(dumped).value.0
    decreases |dumped|
  {
    match ParseHeader(dumped)
    case Failure(e) => Failure(e)
    case Success((id, rest)) =>
      if rest == [] then Success([id])
      else if |rest| >= |dumped| then Failure(Diverges)
      else match IterItemIds(rest)
        case Failure(e) => Failure(e)
        case Success(ids) => Success([id] + ids)
  }

  /** iter_item_ids, with its generator loop collected into a list. */
  method ItemIds(dumped: bytes) returns (r: Result<seq<u64>, Error>)
    ensures r == IterItemIds(dumped)
  {
    var ids: seq<u64> := [];
    var rest := dumped;
    PrefixedEmpty(IterItemIds(dumped));
    while true
      invariant IterItemIds(dumped) == Prefixed(ids, IterItemIds(rest))
      decreases |rest|
    {
      if |rest| < HDR_LEN {
        return Failure(StructError);
      }
      var id := FromLittleEndian(rest[8..16]);
      var rest' := Drop(rest, FromLittleEndian(rest[..4]));
      if rest' != [] && |rest'| >= |rest| {
        return Failure(Diverges);
      }
      IterItemIdsStep(rest, id, rest');
      if rest' == [] {
        return Success(ids + [id]);
      }
      PrefixedAssoc(ids, [id], IterItemIds(rest'));
      ids := ids + [id];
      rest := rest';
    }
  }

  /** Wherever from_dump succeeds, iter_item_ids yields exactly the blocks' item ids, in order. */
  lemma {:induction false} IterIdsAreOwners(dumped: bytes)
    requires ParseItems(dumped).Success?
    ensures IterItemIds(dumped) == Success(Owners(ParseItems(dumped).value))
    decreases |dumped|
  {
    var (l, rest) := ParseBlock(dumped).value;
    assert ParseHeader(dumped) == Success((l.itemId, rest));
    ParseItemsStep(dumped, l, rest);
    IterItemIdsStep(dumped, l.itemId, rest);
    if rest == [] {
      assert ParseItems(dumped) == Success([l]);
      assert |Owners([l])| == 1 && Owners([l])[0] == l.itemId;
      assert Owners([l]) == [l.itemId];
    } else {
      IterIdsAreOwners(rest);
      OwnersCons(l, ParseItems(rest).value);
    }
  }

  lemma OwnersCons(l: ChildAddrList, ls: seq<ChildAddrList>)
    ensures Owners([l] + ls) == [l.itemId] + Owners(ls)
  {
  }

  /** Position of the first block owned by `id`, or |items| when there is none. */
  function OwnerIndex(items: seq<ChildAddrList>, id: u64): (k: nat)
    ensures k <= |items|
    ensures k < |items| ==> items[k].itemId == id
    ensures forall j :: 0 <= j < k ==> items[j].itemId != id
  {
    if items == [] then 0 else if items[0].itemId == id then 0 else 1 + OwnerIndex(items[1..], id)
  }

  /** A position with no owner of `id` before it, holding one (or the end),
      is OwnerIndex. */
  lemma OwnerIndexIs(items: seq<ChildAddrList>, id: u64, k: nat)
    requires k <= |items| && forall j :: 0 <= j < k ==> items[j].itemId != id
    requires k < |items| ==> items[k].itemId == id
    ensures OwnerIndex(items, id) == k
  {
  }

  /** AddressItems.remove: take out the first block owned by `id` and return it
      with the remaining blocks; raises when no block is owned by `id`. */
  method RemoveItem(items: seq<ChildAddrList>, id: u64) returns (r: Result<(seq<ChildAddrList>, ChildAddrList), Error>)
    ensures r.Failure? <==> forall i :: 0 <= i < |items| ==> items[i].itemId != id
    ensures r.Failure? ==> r.error == NoSuchId
    ensures r.Success? ==>
      var k := OwnerIndex(items, id);
      k < |items| && r.value == (items[..k] + items[k + 1..], items[k])
  {
    var idx := |items|;
    for i := 0 to |items|
      invariant forall j :: 0 <= j < i ==> items[j].itemId != id
    {
      if items[i].itemId == id {
        idx := i;
        break;
      }
    }
    if idx == |items| {
      return Failure(NoSuchId);
    }
    return Success((items[..idx] + items[idx + 1..], items[idx]));
  }

  // ---------------------------------------------------------------------------
  // Item records: header '<IIB' = b_size, i_size, item type; the item dump;
  // spaces up to b_size, a multiple of ITEM_PADDING_SIZE.
  // ---------------------------------------------------------------------------

  const ITEM_HDR_SIZE: nat := 9
  const ITEM_PADDING_SIZE: nat := 128
  const IT_DIRECTORY: byte := 0x0f
  const IT_FILE: byte := 0x0e

  function ItemType(isFile: bool): byte
  {
    if isFile then IT_FILE else IT_DIRECTORY
  }

  /** b_size of an item record whose dump has `dumpLen` bytes. */
  function ItemBlockSize(dumpLen: nat): (b: nat)
    ensures b % ITEM_PADDING_SIZE == 0
    ensures dumpLen + ITEM_HDR_SIZE < b <= dumpLen + ITEM_HDR_SIZE + ITEM_PADDING_SIZE
  {
    ((dumpLen + ITEM_HDR_SIZE) / ITEM_PADDING_SIZE + 1) * ITEM_PADDING_SIZE
  }

  /** __do_item_raw_padding, given the item's dump and whether it is a file. */
  function PadItem(dump: bytes, isFile: bool): (r: Result<bytes, Error>)
    ensures r.Success? <==> ItemBlockSize(|dump|) < 0x1_0000_0000
  {
    var iSize := |dump| + ITEM_HDR_SIZE;
    var bSize := ItemBlockSize(|dump|);
    if bSize >= 0x1_0000_0000 then Failure(StructError)
    else Success(LittleEndian(bSize, 4) + LittleEndian(iSize, 4) + [ItemType(isFile)] + dump + Spaces(bSize - iSize))
  }

  /** __get_item_raw_padding: the dump (bytes 9 to i_size) and the type byte. */
  function UnpadItem(raw: bytes): (r: Result<(bytes, byte), Error>)
    ensures r.Success? <==> |raw| >= ITEM_HDR_SIZE
    ensures r.Success? ==> |r.value.0| + ITEM_HDR_SIZE <= |raw| && r.value.1 == raw[8]
  {
    if |raw| < ITEM_HDR_SIZE then Failure(StructError)
    else Success((Slice(raw, ITEM_HDR_SIZE, FromLittleEndian(raw[4..8])), raw[8]))
  }

  /** Unpadding a padded record gives back the dump and the item's type; the
      record is a multiple of 128 bytes and longer than header plus dump. */
  lemma ItemPaddingRoundTrip(dump: bytes, isFile: bool)
    requires PadItem(dump, isFile).Success?
    ensures UnpadItem(PadItem(dump, isFile).value) == Success((dump, ItemType(isFile)))
    ensures |PadItem(dump, isFile).value| % ITEM_PADDING_SIZE == 0
    ensures |PadItem(dump, isFile).value| > ITEM_HDR_SIZE + |dump|
  {
    var r := PadItem(dump, isFile).value;
    var iSize := |dump| + ITEM_HDR_SIZE;
    assert r[4..8] == LittleEndian(iSize, 4);
    LittleEndianRoundTrip(iSize, 4);
    assert r[ITEM_HDR_SIZE..iSize] == dump;
  }
}
