/** nimbus_client/core/smart_file_object.py: a file object that cuts what is
    written into data blocks of at most MAX_DATA_BLOCK_SIZE bytes and hands
    each full block to the transactions manager, and that reads a file back
    block by block.  The transactions manager is not part of this model: it
    is a recorder of the calls it receives, with an abstract capacity for
    transfers and an abstract list of stored blocks.  A data block is
    represented by its bytes (those written to it, or those not yet read
    from it). */
module SmartFiles {
  import opened Wrappers
  import opened Exceptions
  import opened Bytes
  import DataBlocks

  /** Transaction.TT_READ / Transaction.TT_WRITE */
  datatype TxKind = ReadTx | WriteTx

  /** Transaction.TS_LOCAL_SAVED / Transaction.TS_FAILED */
  datatype TxState = LocalSaved | FailedTx

  /** A call the transactions manager receives. */
  datatype Event =
    | NewBlock                                                         // new_data_block()
    | Started(kind: TxKind, path: string, tid: nat)                    // start_transaction
    | Transferred(tid: nat, seek: Option<nat>, size: nat, data: bytes) // transfer_data_block
    | StateSet(of: Option<nat>, state: TxState)                        // update_transaction_state

  /** The transactions manager: the calls so far, the next transaction id it
      hands out, and how many more transfers it accepts before raising. */
  datatype Manager = Manager(events: seq<Event>, nextTid: nat, budget: nat)

  /** The fields of a SmartFileObject: `__seek`, `__cur_data_block`,
      `__cur_db_seek`, `__transaction_id` and `__unsync`. */
  datatype Writer = Writer(seek: Option<nat>, block: Option<bytes>, dbSeek: nat, tid: Option<nat>, unsync: bool)

  datatype Sys = Sys(w: Writer, m: Manager)

  /** The state an operation leaves and the exception it raised, if any. */
  datatype Outcome = Outcome(s: Sys, err: Option<Error>)

  function Content(b: Option<bytes>): bytes
  {
    if b.Some? then b.value else []
  }

  /** Everything transferred so far, in order. */
  function SentData(events: seq<Event>): bytes
  {
    if events == [] then []
    else (if events[0].Transferred? then events[0].data else []) + SentData(events[1..])
  }

  lemma {:induction false} SentDataAppend(a: seq<Event>, b: seq<Event>)
    ensures SentData(a + b) == SentData(a) + SentData(b)
  {
    if a == [] {
      assert a + b == b;
    } else {
      assert (a + b)[0] == a[0];
      assert (a + b)[1..] == a[1..] + b;
      SentDataAppend(a[1..], b);
    }
  }

  /** `if self.__transaction_id:` -- None and 0 are both false. */
  predicate TxOpen(tid: Option<nat>)
  {
    tid.Some? && tid.value != 0
  }

  /** `if not self.__transaction_id: self.__transaction_id = start_transaction(kind, path)` */
  function WithTx(s: Sys, kind: TxKind, path: string): (r: Sys)
    ensures r.w.tid.Some? && r.m.budget == s.m.budget
    ensures r.w == s.w.(tid := r.w.tid)
    ensures SentData(r.m.events) == SentData(s.m.events)
    ensures TxOpen(s.w.tid) ==> r == s
    ensures !TxOpen(s.w.tid) ==>
      r.w.tid == Some(s.m.nextTid) && r.m.events == s.m.events + [Started(kind, path, s.m.nextTid)]
  {
    if TxOpen(s.w.tid) then s
    else
      SentDataAppend(s.m.events, [Started(kind, path, s.m.nextTid)]);
      assert SentData([Started(kind, path, s.m.nextTid)]) == [];
      Sys(s.w.(tid := Some(s.m.nextTid)),
          s.m.(events := s.m.events + [Started(kind, path, s.m.nextTid)], nextTid := s.m.nextTid + 1))
  }

  /** __send_data_block: the block goes to the manager with the file offset
      and the counted size; then the offset advances by the counted size and
      the object has no block and nothing unsynchronised.  A failing transfer
      raises with the transaction already started. */
  function Send(s: Sys, path: string): (r: Outcome)
    requires s.w.block.Some?
    ensures r.s.w.tid.Some?
    ensures r.err.None? <==> s.m.budget > 0 && s.w.seek.Some?
    ensures r.err.None? ==>
      r.s.w.seek == Some(s.w.seek.value + s.w.dbSeek) && r.s.w.block.None? &&
      r.s.w.dbSeek == 0 && !r.s.w.unsync && r.s.m.budget == s.m.budget - 1
    ensures r.err.None? ==> SentData(r.s.m.events) == SentData(s.m.events) + s.w.block.value
    ensures r.err.None? ==>
      r.s.m.events == WithTx(s, WriteTx, path).m.events + [Transferred(r.s.w.tid.value, s.w.seek, s.w.dbSeek, s.w.block.value)]
  {
    var s1 := WithTx(s, WriteTx, path);
    var tid := s1.w.tid.value;
    if s1.m.budget == 0 then Outcome(s1, Some(TransferFailed))
    else
      var ev := Transferred(tid, s1.w.seek, s1.w.dbSeek, s1.w.block.value);
      var m2 := s1.m.(events := s1.m.events + [ev], budget := s1.m.budget - 1);
      SentDataAppend(s1.m.events, [ev]);
      assert SentData([ev]) == ev.data by { assert [ev][1..] == []; }
      if s1.w.seek.None? then Outcome(Sys(s1.w, m2), Some(BadOperand))
      else
        Outcome(Sys(s1.w.(seek := Some(s1.w.seek.value + s1.w.dbSeek), dbSeek := 0, block := None, unsync := false), m2), None)
  }

  /** __failed_transaction: an open transaction is marked TS_FAILED. */
  function Failed(s: Sys): (r: Sys)
    ensures r.w == s.w && r.m.budget == s.m.budget
    ensures SentData(r.m.events) == SentData(s.m.events)
    ensures TxOpen(s.w.tid) ==> r.m.events == s.m.events + [StateSet(s.w.tid, FailedTx)]
    ensures !TxOpen(s.w.tid) ==> r.m == s.m
  {
    if TxOpen(s.w.tid) then
      var ev := StateSet(s.w.tid, FailedTx);
      SentDataAppend(s.m.events, [ev]);
      assert SentData([ev]) == [];
      s.(m := s.m.(events := s.m.events + [ev]))
    else s
  }

  /** `if self.__cur_data_block is None: self.__cur_data_block = new_data_block()` */
  function WithBlock(s: Sys): (r: Sys)
    ensures r.w == s.w.(block := Some(Content(s.w.block)))
    ensures SentData(r.m.events) == SentData(s.m.events) && r.m.budget == s.m.budget
    ensures s.w.block.Some? ==> r == s
    ensures s.w.block.None? ==> r.m.events == s.m.events + [NewBlock]
  {
    if s.w.block.Some? then s
    else
      SentDataAppend(s.m.events, [NewBlock]);
      assert SentData([NewBlock]) == [];
      Sys(s.w.(block := Some([])), s.m.(events := s.m.events + [NewBlock]))
  }

  /** How much of `data` write puts into the current block before spilling:
      `data[:data_len - rest]` with `rest = cur_db_seek + data_len - MAX_DATA_BLOCK_SIZE`,
      Python's negative slice bounds included. */
  function FirstPart(dbSeek: nat, n: nat, maxBlock: nat): (k: nat)
    ensures k <= n
    ensures dbSeek + n <= maxBlock ==> k == n
    ensures dbSeek <= maxBlock < dbSeek + n ==> k == maxBlock - dbSeek
    ensures dbSeek == 0 && maxBlock > 0 && n > 0 ==> k > 0
  {
    var rest := dbSeek + n - maxBlock;
    if rest > 0 then PyBound(n - rest, n) else n
  }

  /** The first half of write: a block if there is none, then `part`
      written into it, counted, and the object marked unsynchronised. */
  function Filled(s: Sys, part: bytes): (r: Sys)
    ensures r.w == s.w.(block := Some(Content(s.w.block) + part), dbSeek := s.w.dbSeek + |part|, unsync := true)
    ensures SentData(r.m.events) == SentData(s.m.events) && r.m.budget == s.m.budget
    ensures r.m == WithBlock(s).m
  {
    var s1 := WithBlock(s);
    s1.(w := s1.w.(block := Some(s1.w.block.value + part), dbSeek := s1.w.dbSeek + |part|, unsync := true))
  }

  /** The end of a spilling write: a failure of the recursive write marks
      the transaction failed once more on the way out; a success is followed
      by line 52, `self.__cur_db_seek += len(rest_data)`. */
  function Recounted(inner: Outcome, spilled: nat): (r: Outcome)
    ensures r.err == inner.err
    ensures r.err.None? ==> r.s == inner.s.(w := inner.s.w.(dbSeek := inner.s.w.dbSeek + spilled))
    ensures r.err.Some? ==> r.s == Failed(inner.s)
  {
    if inner.err.Some? then Outcome(Failed(inner.s), inner.err)
    else Outcome(inner.s.(w := inner.s.w.(dbSeek := inner.s.w.dbSeek + spilled)), None)
  }

  /** write(data) as written: the part that fits goes into the current
      block; a spill sends the block and writes the rest recursively, after
      which line 52 counts the rest a second time. */
  function Written(s: Sys, path: string, maxBlock: nat, data: bytes): (r: Outcome)
    requires maxBlock > 0
    ensures r.err.None? ==> r.s.w.block.Some? && r.s.w.unsync
    ensures s.w.dbSeek + |data| <= maxBlock ==>
      r.err.None? && r.s.w.block == Some(Content(s.w.block) + data) &&
      SentData(r.s.m.events) == SentData(s.m.events)
    decreases |data|, if s.w.dbSeek == 0 then 0 else 1
  {
    var k := FirstPart(s.w.dbSeek, |data|, maxBlock);
    var s2 := Filled(s, data[..k]);
    if k == |data| then
      assert data[..k] == data;
      Outcome(s2, None)
    else
      var sent := Send(s2, path);
      if sent.err.Some? then Outcome(Failed(sent.s), sent.err)
      else Recounted(Written(sent.s, path, maxBlock, data[k..]), |data| - k)
  }

  /** write loses no byte and reorders none: what was transferred before,
      what the current block held and the new data come out as what has been
      transferred since followed by the new current block. */
  lemma {:induction false} WrittenKeepsBytes(s: Sys, path: string, maxBlock: nat, data: bytes)
    requires maxBlock > 0
    ensures var r := Written(s, path, maxBlock, data);
      r.err.None? ==>
        r.s.w.block.Some? && r.s.w.unsync &&
        SentData(r.s.m.events) + Content(r.s.w.block) == SentData(s.m.events) + Content(s.w.block) + data
    decreases |data|, if s.w.dbSeek == 0 then 0 else 1
  {
    var k := FirstPart(s.w.dbSeek, |data|, maxBlock);
    var s2 := Filled(s, data[..k]);
    if k == |data| {
      assert data[..k] == data;
    } else {
      var sent := Send(s2, path);
      if sent.err.None? {
        var inner := Written(sent.s, path, maxBlock, data[k..]);
        WrittenKeepsBytes(sent.s, path, maxBlock, data[k..]);
        if inner.err.None? {
          var r := Written(s, path, maxBlock, data);
          assert r == Recounted(inner, |data| - k);
          var before := SentData(s.m.events);
          var block := Content(s.w.block);
          assert SentData(sent.s.m.events) == before + (block + data[..k]);
          assert Content(sent.s.w.block) == [];
          calc {
            SentData(r.s.m.events) + Content(r.s.w.block);
            SentData(inner.s.m.events) + Content(inner.s.w.block);
            before + (block + data[..k]) + [] + data[k..];
            { Regroup(before, block, data[..k], data[k..]); }
            before + block + (data[..k] + data[k..]);
            { Rejoin(data, k); }
            before + block + data;
          }
        }
      }
    }
  }

  lemma Rejoin(data: bytes, k: nat)
    requires k <= |data|
    ensures data[..k] + data[k..] == data
  {
  }

  lemma Regroup(a: bytes, b: bytes, x: bytes, y: bytes)
    ensures a + (b + x) + [] + y == a + b + (x + y)
  {
  }

  /** A fresh object, no transaction yet, a manager that takes five transfers. */
  const FRESH: Sys := Sys(Writer(Some(0), None, 0, None, false), Manager([], 1, 5))

  /** Line 52 counts spilled bytes twice: with MAX_DATA_BLOCK_SIZE = 2, writing
      three bytes sends two and leaves one in the block, yet `__cur_db_seek`
      says two. */
  lemma SpillCountsTwice()
    ensures var r := Written(FRESH, "f", 2, [1, 2, 3]);
      r.err.None? && r.s.w.block == Some([3]) && r.s.w.dbSeek == 2 &&
      r.s.w == Writer(Some(2), Some([3]), 2, Some(1), true) && r.s.m.budget == 4
  {
    assert FirstPart(0, 3, 2) == 2;
    assert [1, 2, 3][..2] == [1, 2] && [1, 2, 3][2..] == [3];
    var s2 := Filled(FRESH, [1, 2]);
    var sent := Send(s2, "f");
    assert sent.err.None? && sent.s.w.dbSeek == 0 && sent.s.w.block.None?;
    assert FirstPart(0, 1, 2) == 1;
    assert [3][..1] == [3] && [] + [3] == [3];
    var inner := Written(sent.s, "f", 2, [3]);
    assert inner == Outcome(Filled(sent.s, [3]), None);
  }

  /** Three writes with MAX_DATA_BLOCK_SIZE = 2: after the double count the
      third write puts three bytes into one block and the manager receives
      that block labelled as five bytes long, at offset 4, although only
      three bytes were sent before it. */
  lemma OversizedBlockSent()
    ensures var r1 := Written(FRESH, "f", 2, [1, 2, 3]);
      var r2 := Written(r1.s, "f", 2, [4, 5]);
      var r3 := Written(r2.s, "f", 2, [6, 7, 8]);
      r1.err.None? && r2.err.None? && r3.err.None? &&
      Transferred(1, Some(4), 5, [4, 5, 6]) in r3.s.m.events
  {
    SpillCountsTwice();
    var r1 := Written(FRESH, "f", 2, [1, 2, 3]);
    SecondWrite(r1.s);
    ThirdWrite(Written(r1.s, "f", 2, [4, 5]).s);
  }

  /** The second write of the exhibit: nothing fits, and the one-byte block
      is sent as two bytes. */
  lemma SecondWrite(s: Sys)
    requires s.w == Writer(Some(2), Some([3]), 2, Some(1), true) && s.m.budget == 4
    ensures var r := Written(s, "f", 2, [4, 5]);
      r.err.None? && r.s.w == Writer(Some(4), Some([4, 5]), 4, Some(1), true) && r.s.m.budget == 3
  {
    assert FirstPart(2, 2, 2) == 0;
    assert [4, 5][..0] == [] && [4, 5][0..] == [4, 5] && [3] + [] == [3];
    var a := Send(Filled(s, []), "f");
    assert a.err.None? && a.s.w == Writer(Some(4), None, 0, Some(1), false);
    assert FirstPart(0, 2, 2) == 2 && [4, 5][..2] == [4, 5] && [] + [4, 5] == [4, 5];
    var b := Written(a.s, "f", 2, [4, 5]);
    assert b == Outcome(Filled(a.s, [4, 5]), None);
    assert Written(s, "f", 2, [4, 5]) == Recounted(b, 2);
  }

  /** The third write of the exhibit: the count says 4, so Python's slice
      `data[:-2]` keeps one byte, and the block sent holds three. */
  lemma ThirdWrite(s: Sys)
    requires s.w == Writer(Some(4), Some([4, 5]), 4, Some(1), true) && s.m.budget == 3
    ensures var r := Written(s, "f", 2, [6, 7, 8]);
      r.err.None? && Transferred(1, Some(4), 5, [4, 5, 6]) in r.s.m.events
  {
    assert FirstPart(4, 3, 2) == 1;
    assert [6, 7, 8][..1] == [6] && [6, 7, 8][1..] == [7, 8] && [4, 5] + [6] == [4, 5, 6];
    var s2 := Filled(s, [6]);
    assert s2.w == Writer(Some(4), Some([4, 5, 6]), 5, Some(1), true);
    var c := Send(s2, "f");
    var ev := Transferred(1, Some(4), 5, [4, 5, 6]);
    assert c.err.None? && c.s.m.events == s2.m.events + [ev];
    assert FirstPart(0, 2, 2) == 2 && [7, 8][..2] == [7, 8];
    var d := Written(c.s, "f", 2, [7, 8]);
    assert d == Outcome(Filled(c.s, [7, 8]), None);
    assert d.s.m.events == c.s.m.events + [NewBlock];
    assert Written(s, "f", 2, [6, 7, 8]) == Recounted(d, 2);
    assert (s2.m.events + [ev] + [NewBlock])[|s2.m.events|] == ev;
  }

  /** A write that fits goes entirely into the current block, which is
      created only when there is none, and is counted once. */
  lemma WrittenFits(s: Sys, path: string, maxBlock: nat, data: bytes)
    requires maxBlock > 0 && s.w.dbSeek + |data| <= maxBlock
    ensures var r := Written(s, path, maxBlock, data);
      r.err.None? &&
      r.s.w == s.w.(block := Some(Content(s.w.block) + data), dbSeek := s.w.dbSeek + |data|, unsync := true) &&
      (s.w.block.Some? ==> r.s.m == s.m) &&
      (s.w.block.None? ==> r.s.m.events == s.m.events + [NewBlock])
  {
    assert data[..|data|] == data;
  }

  /** The calls a write makes only add to what the manager has received. */
  lemma {:induction false} WrittenExtends(s: Sys, path: string, maxBlock: nat, data: bytes)
    requires maxBlock > 0
    ensures var r := Written(s, path, maxBlock, data);
      |s.m.events| <= |r.s.m.events| && r.s.m.events[..|s.m.events|] == s.m.events
    decreases |data|, if s.w.dbSeek == 0 then 0 else 1
  {
    var k := FirstPart(s.w.dbSeek, |data|, maxBlock);
    var s2 := Filled(s, data[..k]);
    assert |s.m.events| <= |s2.m.events| && s2.m.events[..|s.m.events|] == s.m.events;
    if k < |data| {
      var sent := Send(s2, path);
      assert |s.m.events| <= |sent.s.m.events| && sent.s.m.events[..|s.m.events|] == s.m.events;
      if sent.err.None? {
        WrittenExtends(sent.s, path, maxBlock, data[k..]);
        RecountedExtends(Written(sent.s, path, maxBlock, data[k..]), |data| - k, s.m.events);
      }
    }
  }

  /** A write that spills first sends the current block topped up to exactly
      MAX_DATA_BLOCK_SIZE counted bytes. */
  lemma WrittenSpills(s: Sys, path: string, maxBlock: nat, data: bytes)
    requires maxBlock > 0 && s.w.dbSeek <= maxBlock < s.w.dbSeek + |data|
    ensures var k := maxBlock - s.w.dbSeek;
      var sent := Send(Filled(s, data[..k]), path);
      var r := Written(s, path, maxBlock, data);
      sent.err.None? ==>
        |sent.s.m.events| <= |r.s.m.events| && r.s.m.events[..|sent.s.m.events|] == sent.s.m.events &&
        sent.s.m.events[|sent.s.m.events| - 1] ==
          Transferred(sent.s.w.tid.value, s.w.seek, maxBlock, Content(s.w.block) + data[..k])
  {
    var k := maxBlock - s.w.dbSeek;
    assert FirstPart(s.w.dbSeek, |data|, maxBlock) == k;
    var s2 := Filled(s, data[..k]);
    var sent := Send(s2, path);
    if sent.err.None? {
      var e := sent.s.m.events;
      var ev := Transferred(sent.s.w.tid.value, s.w.seek, maxBlock, Content(s.w.block) + data[..k]);
      assert s2.w.seek == s.w.seek && s2.w.dbSeek == maxBlock && s2.w.block == Some(Content(s.w.block) + data[..k]);
      assert e == WithTx(s2, WriteTx, path).m.events + [ev];
      var inner := Written(sent.s, path, maxBlock, data[k..]);
      WrittenExtends(sent.s, path, maxBlock, data[k..]);
      assert Written(s, path, maxBlock, data) == Recounted(inner, |data| - k);
      RecountedExtends(inner, |data| - k, e);
    }
  }

  /** Line 52 and the failure path only add to the manager's record. */
  lemma RecountedExtends(inner: Outcome, spilled: nat, e: seq<Event>)
    requires |e| <= |inner.s.m.events| && inner.s.m.events[..|e|] == e
    ensures var r := Recounted(inner, spilled);
      |e| <= |r.s.m.events| && r.s.m.events[..|e|] == e
  {
    if inner.err.Some? {
      var ev := StateSet(inner.s.w.tid, FailedTx);
      if TxOpen(inner.s.w.tid) {
        assert (inner.s.m.events + [ev])[..|e|] == inner.s.m.events[..|e|];
      }
    }
  }

  /** write as evidently intended: without line 52. */
  function WrittenCorrected(s: Sys, path: string, maxBlock: nat, data: bytes): (r: Outcome)
    requires maxBlock > 0
    ensures r.err.None? ==> r.s.w.block.Some? && r.s.w.unsync
    ensures s.w.dbSeek + |data| <= maxBlock ==>
      r.err.None? && r.s.w.block == Some(Content(s.w.block) + data) &&
      SentData(r.s.m.events) == SentData(s.m.events)
    decreases |data|, if s.w.dbSeek == 0 then 0 else 1
  {
    var k := FirstPart(s.w.dbSeek, |data|, maxBlock);
    var s2 := Filled(s, data[..k]);
    if k == |data| then
      assert data[..k] == data;
      Outcome(s2, None)
    else
      var sent := Send(s2, path);
      if sent.err.Some? then Outcome(Failed(sent.s), sent.err)
      else Recounted(WrittenCorrected(sent.s, path, maxBlock, data[k..]), 0)
  }

  /** `__cur_db_seek` is the number of bytes in the current block, and that
      is at most MAX_DATA_BLOCK_SIZE. */
  predicate Counted(w: Writer, maxBlock: nat)
  {
    w.dbSeek == |Content(w.block)| <= maxBlock
  }

  /** Every block the manager received is labelled with its true size, and
      none exceeds MAX_DATA_BLOCK_SIZE. */
  predicate ExactTransfers(events: seq<Event>, maxBlock: nat)
  {
    forall i :: 0 <= i < |events| && events[i].Transferred? ==>
      events[i].size == |events[i].data| <= maxBlock
  }

  lemma ExactTransfersAppend(events: seq<Event>, e: Event, maxBlock: nat)
    requires ExactTransfers(events, maxBlock)
    requires e.Transferred? ==> e.size == |e.data| <= maxBlock
    ensures ExactTransfers(events + [e], maxBlock)
  {
    forall i | 0 <= i < |events + [e]| && (events + [e])[i].Transferred?
      ensures (events + [e])[i].size == |(events + [e])[i].data| <= maxBlock
    {
      if i < |events| {
        assert (events + [e])[i] == events[i];
      }
    }
  }

  /** Without line 52 the counter stays exact, blocks stay within
      MAX_DATA_BLOCK_SIZE, and each is sent labelled with its true size. */
  lemma {:induction false} CorrectedWriteCounts(s: Sys, path: string, maxBlock: nat, data: bytes)
    requires maxBlock > 0
    requires Counted(s.w, maxBlock) && ExactTransfers(s.m.events, maxBlock)
    ensures var r := WrittenCorrected(s, path, maxBlock, data);
      r.err.None? ==> Counted(r.s.w, maxBlock) && ExactTransfers(r.s.m.events, maxBlock)
    decreases |data|, if s.w.dbSeek == 0 then 0 else 1
  {
    var k := FirstPart(s.w.dbSeek, |data|, maxBlock);
    var s2 := Filled(s, data[..k]);
    if s.w.block.None? {
      ExactTransfersAppend(s.m.events, NewBlock, maxBlock);
    }
    assert ExactTransfers(s2.m.events, maxBlock);
    assert Counted(s2.w, maxBlock);
    if k < |data| {
      var sent := Send(s2, path);
      if sent.err.None? {
        var s3 := WithTx(s2, WriteTx, path);
        if !TxOpen(s2.w.tid) {
          ExactTransfersAppend(s2.m.events, Started(WriteTx, path, s2.m.nextTid), maxBlock);
        }
        ExactTransfersAppend(s3.m.events, Transferred(sent.s.w.tid.value, s2.w.seek, s2.w.dbSeek, s2.w.block.value), maxBlock);
        CorrectedWriteCounts(sent.s, path, maxBlock, data[k..]);
      }
    }
  }

  // ---------------------------------------------------------------------------
  // close
  // ---------------------------------------------------------------------------

  /** close(): only an object with unsynchronised data sends its pending
      block and marks the transaction TS_LOCAL_SAVED. */
  function Closed(s: Sys, path: string): (r: Outcome)
    ensures !s.w.unsync ==> r == Outcome(s, None)
    ensures s.w.unsync && s.w.block.Some? ==> r.err == Send(s, path).err
    ensures s.w.unsync && r.err.None? ==>
      var before := if s.w.block.Some? then Send(s, path).s else s;
      r.s.w == before.w && r.s.m.events == before.m.events + [StateSet(before.w.tid, LocalSaved)]
  {
    if !s.w.unsync then Outcome(s, None)
    else
      var sent := if s.w.block.Some? then Send(s, path) else Outcome(s, None);
      if sent.err.Some? then sent
      else Outcome(sent.s.(m := sent.s.m.(events := sent.s.m.events + [StateSet(sent.s.w.tid, LocalSaved)])), None)
  }

  /** After a write and a close that both succeed, the manager has received
      everything: what it had, the block that was pending, and the data. */
  lemma WriteThenCloseDelivers(s: Sys, path: string, maxBlock: nat, data: bytes)
    requires maxBlock > 0
    ensures var r := Written(s, path, maxBlock, data);
      var c := Closed(r.s, path);
      r.err.None? && c.err.None? ==>
        SentData(c.s.m.events) == SentData(s.m.events) + Content(s.w.block) + data &&
        c.s.w.block.None? && !c.s.w.unsync && c.s.w.dbSeek == 0
  {
    var r := Written(s, path, maxBlock, data);
    WrittenKeepsBytes(s, path, maxBlock, data);
    if r.err.None? {
      var sent := Send(r.s, path);
      if sent.err.None? {
        var ev := StateSet(sent.s.w.tid, LocalSaved);
        SentDataAppend(sent.s.m.events, [ev]);
        assert SentData([ev]) == [];
        assert SentData(sent.s.m.events) == SentData(r.s.m.events) + Content(r.s.w.block);
      }
    }
  }

  // ---------------------------------------------------------------------------
  // read
  // ---------------------------------------------------------------------------

  /** The manager's get_data_block(transaction, seek), over a file kept as a
      list of stored blocks laid end to end: the rest of the block holding
      `seek`, and the offset of the next block, or None after the last one
      that holds data. */
  function Fetch(stored: seq<bytes>, seek: nat): (r: (bytes, Option<nat>))
    ensures r.0 == [] ==> r.1.None?
    ensures r.0 != [] <==> seek < |DataBlocks.Flatten(stored)|
    decreases stored
  {
    if stored == [] then ([], None)
    else if seek < |stored[0]| then
      (stored[0][seek..], if DataBlocks.Flatten(stored[1..]) == [] then None else Some(|stored[0]|))
    else
      var got := Fetch(stored[1..], seek - |stored[0]|);
      (got.0, if got.1.Some? then Some(got.1.value + |stored[0]|) else None)
  }

  /** The file from byte `seek` on is the block Fetch returns followed by the
      file from the next offset, which lies strictly further on. */
  lemma {:induction false} FetchFacts(stored: seq<bytes>, seek: nat)
    ensures var r := Fetch(stored, seek);
      var f := DataBlocks.Flatten(stored);
      Drop(f, seek) == r.0 + (if r.1.Some? then Drop(f, r.1.value) else []) &&
      (r.1.Some? ==> seek < r.1.value <= |f|)
    decreases stored
  {
    if stored != [] {
      var f := DataBlocks.Flatten(stored);
      var h, t := stored[0], DataBlocks.Flatten(stored[1..]);
      assert f == h + t;
      if seek < |h| {
        assert Drop(f, seek) == h[seek..] + t;
        assert Drop(f, |h|) == t;
      } else {
        FetchFacts(stored[1..], seek - |h|);
        var got := Fetch(stored[1..], seek - |h|);
        assert Drop(f, seek) == Drop(t, seek - |h|);
        if got.1.Some? {
          assert Drop(f, got.1.value + |h|) == Drop(t, got.1.value);
        }
      }
    }
  }

  /** `if read_len` -- None and 0 both mean "everything". */
  predicate Truthy(rlen: Option<nat>)
  {
    rlen.Some? && rlen.value > 0
  }

  /** How much DataBlock.read(read_len) takes from a block with `b` unread. */
  function Taken(b: bytes, rlen: Option<nat>): (t: nat)
    ensures t <= |b|
    ensures Truthy(rlen) ==> t <= rlen.value && (t < rlen.value ==> t == |b|)
    ensures !Truthy(rlen) ==> t == |b|
  {
    if Truthy(rlen) && rlen.value < |b| then rlen.value else |b|
  }

  /** What read leaves: the data, the current block's unread rest, `__seek`. */
  datatype ReadOut = ReadOut(data: bytes, block: Option<bytes>, seek: Option<nat>)

  /** The unread part of the file: the current block's rest, then the
      stored file from `seek` on. */
  function Stream(stored: seq<bytes>, block: Option<bytes>, seek: Option<nat>): bytes
  {
    Content(block) + (if seek.Some? then Drop(DataBlocks.Flatten(stored), seek.value) else [])
  }

  /** Blocks still to fetch, for termination. */
  function Left(stored: seq<bytes>, seek: Option<nat>): nat
  {
    if seek.None? then 0
    else if seek.value <= |DataBlocks.Flatten(stored)| then |DataBlocks.Flatten(stored)| - seek.value + 1
    else 1
  }

  /** The block the loop reads next and the `__seek` after it: the current
      block if there is one, or else the one fetched at `__seek`. */
  function NextBlock(stored: seq<bytes>, block: Option<bytes>, seek: Option<nat>): (r: (bytes, Option<nat>))
    requires block.Some? || seek.Some?
    ensures Stream(stored, block, seek) == r.0 + Stream(stored, None, r.1)
    ensures block.Some? ==> r == (block.value, seek)
    ensures block.None? ==> Left(stored, r.1) < Left(stored, seek)
  {
    if block.Some? then (block.value, seek)
    else
      FetchStream(stored, seek.value);
      Fetch(stored, seek.value)
  }

  /** FetchFacts in terms of Stream and Left. */
  lemma FetchStream(stored: seq<bytes>, seek: nat)
    ensures var r := Fetch(stored, seek);
      Stream(stored, None, Some(seek)) == r.0 + Stream(stored, None, r.1) &&
      Left(stored, r.1) < Left(stored, Some(seek))
  {
    var r := Fetch(stored, seek);
    var f := DataBlocks.Flatten(stored);
    FetchFacts(stored, seek);
    assert Stream(stored, None, Some(seek)) == Drop(f, seek);
    assert Stream(stored, None, r.1) == if r.1.Some? then Drop(f, r.1.value) else [];
  }

  /** The `while True` loop of read as written: every block is asked for
      `read_len` bytes, and the loop stops once `read_len` have been
      gathered or the file has no next block. */
  function ReadLoop(stored: seq<bytes>, block: Option<bytes>, seek: Option<nat>, ret: bytes, rlen: Option<nat>): (r: ReadOut)
    ensures r.block.Some? ==> Truthy(rlen) && |r.data| >= rlen.value
    decreases 2 * Left(stored, seek) + (if block.Some? then 1 else 0)
  {
    if block.None? && seek.None? then ReadOut(ret, None, None)
    else
      var got := NextBlock(stored, block, seek);
      var t := Taken(got.0, rlen);
      var ret' := ret + got.0[..t];
      if Truthy(rlen) && |ret'| >= rlen.value then ReadOut(ret', Some(got.0[t..]), got.1)
      else ReadLoop(stored, None, got.1, ret', rlen)
  }

  lemma PrefixOfPrefix(a: bytes, b: bytes, c: bytes)
    requires |a + b| <= |c| && c[..|a + b|] == a + b
    ensures |a| <= |c| && c[..|a|] == a
  {
    assert c[..|a|] == (a + b)[..|a|];
  }

  lemma Reassoc(ret: bytes, b: bytes, t: nat, rest: bytes)
    requires t <= |b|
    ensures ret + (b + rest) == (ret + b[..t]) + (b[t..] + rest)
    ensures ret + (b + rest) == (ret + b[..t]) + rest || t < |b|
  {
    assert b == b[..t] + b[t..];
  }

  /** read(read_len) as written. */
  function ReadSpec(s: Sys, stored: seq<bytes>, path: string, rlen: Option<nat>): (r: (bytes, Sys))
    ensures SentData(r.1.m.events) == SentData(s.m.events) && r.1.m.budget == s.m.budget
    ensures r.1.w.block.Some? ==> Truthy(rlen) && |r.0| >= rlen.value
  {
    var s1 := WithTx(s, ReadTx, path);
    var o := ReadLoop(stored, s1.w.block, s1.w.seek, [], rlen);
    (o.data, s1.(w := s1.w.(block := o.block, seek := o.seek)))
  }

  /** read returns the next bytes of the file in order and loses none. */
  lemma {:induction false} ReadLoopKeepsOrder(stored: seq<bytes>, block: Option<bytes>, seek: Option<nat>, ret: bytes, rlen: Option<nat>)
    ensures var r := ReadLoop(stored, block, seek, ret, rlen);
      ret + Stream(stored, block, seek) == r.data + Stream(stored, r.block, r.seek) &&
      |ret| <= |r.data| && r.data[..|ret|] == ret
    decreases 2 * Left(stored, seek) + (if block.Some? then 1 else 0)
  {
    if !(block.None? && seek.None?) {
      var got := NextBlock(stored, block, seek);
      var b := got.0;
      var t := Taken(b, rlen);
      var ret' := ret + b[..t];
      var rest := Stream(stored, None, got.1);
      assert Stream(stored, block, seek) == b + rest;
      Reassoc(ret, b, t, rest);
      if Truthy(rlen) && |ret'| >= rlen.value {
        assert ReadLoop(stored, block, seek, ret, rlen) == ReadOut(ret', Some(b[t..]), got.1);
        assert Stream(stored, Some(b[t..]), got.1) == b[t..] + rest;
        PrefixOfPrefix(ret, b[..t], ret');
      } else {
        assert ReadLoop(stored, block, seek, ret, rlen) == ReadLoop(stored, None, got.1, ret', rlen);
        ReadLoopKeepsOrder(stored, None, got.1, ret', rlen);
        PrefixOfPrefix(ret, b[..t], ReadLoop(stored, None, got.1, ret', rlen).data);
        assert t == |b| by {
          if Truthy(rlen) { assert t < rlen.value; }
        }
        assert b[t..] == [];
      }
    }
  }

  /** With a read_len, read stops once it has that many bytes or the file
      is exhausted, and, as written, may return up to twice read_len less
      one; without one it reads to the end. */
  lemma {:induction false} ReadLoopStops(stored: seq<bytes>, block: Option<bytes>, seek: Option<nat>, ret: bytes, rlen: Option<nat>)
    ensures var r := ReadLoop(stored, block, seek, ret, rlen);
      (Truthy(rlen) ==> |r.data| >= rlen.value || (r.block.None? && r.seek.None?)) &&
      (!Truthy(rlen) ==> r.block.None? && r.seek.None?) &&
      (Truthy(rlen) && |ret| < rlen.value ==> |r.data| < 2 * rlen.value)
    decreases 2 * Left(stored, seek) + (if block.Some? then 1 else 0)
  {
    if !(block.None? && seek.None?) {
      var got := NextBlock(stored, block, seek);
      var t := Taken(got.0, rlen);
      var ret' := ret + got.0[..t];
      if !(Truthy(rlen) && |ret'| >= rlen.value) {
        ReadLoopStops(stored, None, got.1, ret', rlen);
      }
    }
  }

  /** read(3) on a file stored as two 2-byte blocks returns all four bytes. */
  lemma ReadReturnsTooMuch()
    ensures ReadLoop([[1, 2], [3, 4]], None, Some(0), [], Some(3)).data == [1, 2, 3, 4]
  {
    var stored: seq<bytes> := [[1, 2], [3, 4]];
    assert DataBlocks.Flatten(stored[1..]) == [3, 4] by {
      assert stored[1..][1..] == [];
    }
    assert Fetch(stored, 0) == ([1, 2], Some(2));
    assert [1, 2][0..] == [1, 2] && [1, 2][..2] == [1, 2];
    assert stored[1..] == [[3, 4]] && [[3, 4]][1..] == [];
    assert Fetch(stored[1..], 0) == ([3, 4], None);
    assert Fetch(stored, 2) == ([3, 4], None);
    assert [3, 4][..2] == [3, 4] && [1, 2] + [3, 4] == [1, 2, 3, 4];
  }

  /** read as evidently intended: each block is asked only for what is still
      missing, `read_len - len(ret_data)`. */
  function ReadLoopCorrected(stored: seq<bytes>, block: Option<bytes>, seek: Option<nat>, ret: bytes, rlen: Option<nat>): (r: ReadOut)
    ensures r.block.Some? ==> Truthy(rlen) && |r.data| >= rlen.value
    decreases 2 * Left(stored, seek) + (if block.Some? then 1 else 0)
  {
    if block.None? && seek.None? then ReadOut(ret, None, None)
    else
      var got := NextBlock(stored, block, seek);
      var t := Taken(got.0, if Truthy(rlen) && |ret| < rlen.value then Some(rlen.value - |ret|) else rlen);
      var ret' := ret + got.0[..t];
      if Truthy(rlen) && |ret'| >= rlen.value then ReadOut(ret', Some(got.0[t..]), got.1)
      else ReadLoopCorrected(stored, None, got.1, ret', rlen)
  }

  /** The corrected loop, too, returns the next bytes of the file in order
      and loses none. */
  lemma {:induction false} CorrectedReadKeepsOrder(stored: seq<bytes>, block: Option<bytes>, seek: Option<nat>, ret: bytes, rlen: Option<nat>)
    requires Truthy(rlen) && |ret| < rlen.value
    ensures var r := ReadLoopCorrected(stored, block, seek, ret, rlen);
      ret + Stream(stored, block, seek) == r.data + Stream(stored, r.block, r.seek)
    decreases 2 * Left(stored, seek) + (if block.Some? then 1 else 0)
  {
    if !(block.None? && seek.None?) {
      var got := NextBlock(stored, block, seek);
      var b := got.0;
      var t := Taken(b, Some(rlen.value - |ret|));
      var rest := Stream(stored, None, got.1);
      assert Stream(stored, block, seek) == b + rest;
      Reassoc(ret, b, t, rest);
      if |ret + b[..t]| < rlen.value {
        assert ReadLoopCorrected(stored, block, seek, ret, rlen) == ReadLoopCorrected(stored, None, got.1, ret + b[..t], rlen);
        CorrectedReadKeepsOrder(stored, None, got.1, ret + b[..t], rlen);
      } else {
        assert ReadLoopCorrected(stored, block, seek, ret, rlen) == ReadOut(ret + b[..t], Some(b[t..]), got.1);
        assert Stream(stored, Some(b[t..]), got.1) == b[t..] + rest;
      }
    }
  }

  /** The corrected loop returns exactly read_len bytes unless the file ends
      first. */
  lemma {:induction false} CorrectedReadIsExact(stored: seq<bytes>, block: Option<bytes>, seek: Option<nat>, ret: bytes, rlen: Option<nat>)
    requires Truthy(rlen) && |ret| < rlen.value
    ensures var r := ReadLoopCorrected(stored, block, seek, ret, rlen);
      |r.data| <= rlen.value &&
      (|r.data| == rlen.value || (r.block.None? && r.seek.None?))
    decreases 2 * Left(stored, seek) + (if block.Some? then 1 else 0)
  {
    if !(block.None? && seek.None?) {
      var got := NextBlock(stored, block, seek);
      var t := Taken(got.0, Some(rlen.value - |ret|));
      if |ret + got.0[..t]| < rlen.value {
        CorrectedReadIsExact(stored, None, got.1, ret + got.0[..t], rlen);
      }
    }
  }

  // ---------------------------------------------------------------------------
  // The objects
  // ---------------------------------------------------------------------------

  function ErrOf(r: Result<(), Error>): Option<Error>
  {
    if r.Failure? then Some(r.error) else None
  }

  /** The transactions manager, as far as SmartFileObject uses it. */
  class TransactionsManager {
    var events: seq<Event>
    var nextTid: nat
    var budget: nat
    /** the blocks of the file get_data_block serves */
    const stored: seq<bytes>

    function State(): Manager
      reads this
    {
      Manager(events, nextTid, budget)
    }

    constructor(stored: seq<bytes>, nextTid: nat, budget: nat)
      ensures State() == Manager([], nextTid, budget) && this.stored == stored
    {
      this.stored := stored;
      this.nextTid := nextTid;
      this.budget := budget;
      events := [];
    }

    method NewDataBlock()
      modifies this
      ensures State() == old(State()).(events := old(events) + [NewBlock])
    {
      events := events + [NewBlock];
    }

    method StartTransaction(kind: TxKind, path: string) returns (tid: nat)
      modifies this
      ensures tid == old(nextTid)
      ensures State() == Manager(old(events) + [Started(kind, path, tid)], old(nextTid) + 1, old(budget))
    {
      tid := nextTid;
      events := events + [Started(kind, path, tid)];
      nextTid := nextTid + 1;
    }

    method TransferDataBlock(tid: nat, seek: Option<nat>, size: nat, data: bytes) returns (r: Result<(), Error>)
      modifies this
      ensures old(budget) == 0 ==> r == Failure(TransferFailed) && State() == old(State())
      ensures old(budget) > 0 ==>
        r.Success? && State() == Manager(old(events) + [Transferred(tid, seek, size, data)], old(nextTid), old(budget) - 1)
    {
      if budget == 0 {
        return Failure(TransferFailed);
      }
      events := events + [Transferred(tid, seek, size, data)];
      budget := budget - 1;
      return Success(());
    }

    method UpdateTransactionState(tid: Option<nat>, state: TxState)
      modifies this
      ensures State() == old(State()).(events := old(events) + [StateSet(tid, state)])
    {
      events := events + [StateSet(tid, state)];
    }

    method GetDataBlock(tid: Option<nat>, seek: nat) returns (block: bytes, next: Option<nat>)
      ensures (block, next) == Fetch(stored, seek)
    {
      var got := Fetch(stored, seek);
      block, next := got.0, got.1;
    }
  }

  class SmartFileObject {
    /** `self.__file_path` */
    const path: string
    /** SmartFileObject.TRANSACTIONS_MANAGER */
    const manager: TransactionsManager
    /** MAX_DATA_BLOCK_SIZE */
    const maxBlock: nat

    var seek: Option<nat>
    var block: Option<bytes>
    var dbSeek: nat
    var tid: Option<nat>
    var unsync: bool

    function Snapshot(): Sys
      reads this, manager
    {
      Sys(Writer(seek, block, dbSeek, tid, unsync), manager.State())
    }

    constructor(path: string, manager: TransactionsManager, maxBlock: nat)
      requires maxBlock > 0
      ensures this.path == path && this.manager == manager && this.maxBlock == maxBlock
      ensures Snapshot() == Sys(Writer(Some(0), None, 0, None, false), old(manager.State()))
    {
      this.path := path;
      this.manager := manager;
      this.maxBlock := maxBlock;
      seek := Some(0);
      block := None;
      dbSeek := 0;
      tid := None;
      unsync := false;
    }

    method Write(data: bytes) returns (r: Result<(), Error>)
      requires maxBlock > 0
      modifies this, manager
      ensures Outcome(Snapshot(), ErrOf(r)) == Written(old(Snapshot()), path, maxBlock, data)
      decreases |data|, if dbSeek == 0 then 0 else 1
    {
      ghost var s0 := Snapshot();
      if block.None? {
        manager.NewDataBlock();
        block := Some([]);
      }
      var dataLen := |data|;
      var rest := dbSeek + dataLen - maxBlock;
      var cut := dataLen;
      if rest > 0 {
        cut := PyBound(dataLen - rest, dataLen);
      }
      var restData := data[cut..];
      block := Some(block.value + data[..cut]);
      dbSeek := dbSeek + cut;
      unsync := true;
      assert cut == FirstPart(s0.w.dbSeek, |data|, maxBlock);
      assert Snapshot() == Filled(s0, data[..cut]);
      if restData != [] {
        ghost var s2 := Snapshot();
        r := SendDataBlock();
        if r.Failure? {
          FailedTransaction();
          return;
        }
        r := Write(restData);
        if r.Failure? {
          FailedTransaction();
          return;
        }
        dbSeek := dbSeek + |restData|;
      }
      r := Success(());
    }

    method SendDataBlock() returns (r: Result<(), Error>)
      requires block.Some?
      modifies this, manager
      ensures Outcome(Snapshot(), ErrOf(r)) == Send(old(Snapshot()), path)
    {
      if !TxOpen(tid) {
        var t := manager.StartTransaction(WriteTx, path);
        tid := Some(t);
      }
      r := manager.TransferDataBlock(tid.value, seek, dbSeek, block.value);
      if r.Failure? {
        return;
      }
      if seek.None? {
        return Failure(BadOperand);
      }
      seek := Some(seek.value + dbSeek);
      dbSeek := 0;
      block := None;
      unsync := false;
    }

    method FailedTransaction()
      modifies manager
      ensures Snapshot() == Failed(old(Snapshot()))
    {
      if TxOpen(tid) {
        manager.UpdateTransactionState(tid, FailedTx);
      }
    }

    method Close() returns (r: Result<(), Error>)
      modifies this, manager
      ensures Outcome(Snapshot(), ErrOf(r)) == Closed(old(Snapshot()), path)
    {
      r := Success(());
      if unsync {
        if block.Some? {
          r := SendDataBlock();
          if r.Failure? {
            return;
          }
        }
        manager.UpdateTransactionState(tid, LocalSaved);
      }
    }

    method Read(readLen: Option<nat>) returns (ret: bytes)
      modifies this, manager
      ensures (ret, Snapshot()) == ReadSpec(old(Snapshot()), manager.stored, path, readLen)
    {
      if !TxOpen(tid) {
        var t := manager.StartTransaction(ReadTx, path);
        tid := Some(t);
      }
      var o := ReadBlocks(block, seek, readLen);
      block, seek := o.block, o.seek;
      ret := o.data;
    }

    /** The loop of read: blocks from the current one (or the one fetched
        at `seek`) on, until `read_len` bytes are gathered or the file ends. */
    method ReadBlocks(cur0: Option<bytes>, at0: Option<nat>, readLen: Option<nat>) returns (o: ReadOut)
      ensures o == ReadLoop(manager.stored, cur0, at0, [], readLen)
    {
      var stored := manager.stored;
      var cur, at := cur0, at0;
      ghost var target := ReadLoop(stored, cur, at, [], readLen);
      var ret := [];
      while true
        invariant ReadLoop(stored, cur, at, ret, readLen) == target
        decreases 2 * Left(stored, at) + (if cur.Some? then 1 else 0)
      {
        if cur.None? && at.None? {
          break;
        }
        ghost var got := NextBlock(stored, cur, at);
        if cur.None? {
          var b, next := manager.GetDataBlock(tid, at.value);
          cur, at := Some(b), next;
        }
        var t := Taken(cur.value, readLen);
        var data := cur.value[..t];
        cur := Some(cur.value[t..]);
        ret := ret + data;
        if Truthy(readLen) && |ret| >= readLen.value {
          assert target == ReadOut(ret, cur, at);
          break;
        }
        cur := None;
      }
      o := ReadOut(ret, cur, at);
    }
  }
}
