/** nimbus_client/core/data_block.py: the reference-counted lock table
    (DBLocksManager) and the bookkeeping of one data block (DataBlock): its
    lock registration, its byte-seek counter and the re-chunking of reads
    through a carry-over buffer. */
module DataBlocks {
  import opened Wrappers
  import opened Exceptions
  import opened Bytes

  // ---------------------------------------------------------------------------
  // DBLocksManager
  // ---------------------------------------------------------------------------

  /** `self.__locks.get(lock_obj, 0)` */
  function Count(locks: map<string, nat>, o: string): nat
  {
    if o in locks then locks[o] else 0
  }

  /** Every entry the manager keeps counts at least one holder. */
  predicate CountsPositive(locks: map<string, nat>)
  {
    forall o :: o in locks ==> locks[o] >= 1
  }

  /** The table after `set(o)`. */
  function Incremented(locks: map<string, nat>, o: string): (r: map<string, nat>)
    ensures Count(r, o) == Count(locks, o) + 1
    ensures forall p :: p != o ==> Count(r, p) == Count(locks, p)
    ensures CountsPositive(locks) ==> CountsPositive(r)
  {
    locks[o := Count(locks, o) + 1]
  }

  /** The table after `release(o)`: a count of at most one is deleted, which
      raises KeyError when there is no entry at all. */
  function Decremented(locks: map<string, nat>, o: string): (r: Result<map<string, nat>, Error>)
    ensures r.Failure? <==> o !in locks
    ensures r.Failure? ==> r.error == KeyError
    ensures r.Success? ==> Count(r.value, o) == (if Count(locks, o) <= 1 then 0 else Count(locks, o) - 1)
    ensures r.Success? ==> forall p :: p != o ==> Count(r.value, p) == Count(locks, p)
    ensures r.Success? && CountsPositive(locks) ==> CountsPositive(r.value)
  {
    var cur := Count(locks, o);
    if cur <= 1 then
      if o in locks then Success(locks - {o}) else Failure(KeyError)
    else Success(locks[o := cur - 1])
  }

  /** A set followed by a release of the same object restores the table. */
  lemma SetThenRelease(locks: map<string, nat>, o: string)
    requires CountsPositive(locks)
    ensures Decremented(Incremented(locks, o), o) == Success(locks)
  {
    if o in locks {
      assert locks[o := locks[o] + 1][o := locks[o]] == locks;
    } else {
      assert locks[o := 1] - {o} == locks;
    }
  }

  /** In a reachable table an object is locked exactly when it has an entry. */
  lemma LockedIffListed(locks: map<string, nat>, o: string)
    requires CountsPositive(locks)
    ensures Count(locks, o) > 0 <==> o in locks
  {
  }

  class DBLocksManager {
    /** `self.__locks` */
    var locks: map<string, nat>

    ghost predicate Valid()
      reads this
    {
      CountsPositive(locks)
    }

    constructor()
      ensures Valid() && locks == map[]
    {
      locks := map[];
    }

    method Set(o: string)
      modifies this
      ensures locks == Incremented(old(locks), o)
    {
      var cur := Count(locks, o);
      locks := locks[o := cur + 1];
    }

    method Release(o: string) returns (r: Result<(), Error>)
      modifies this
      ensures Decremented(old(locks), o).Success? ==> r.Success? && locks == Decremented(old(locks), o).value
      ensures Decremented(old(locks), o).Failure? ==> r == Failure(KeyError) && locks == old(locks)
    {
      var cur := Count(locks, o);
      if cur <= 1 {
        if o !in locks {
          return Failure(KeyError);
        }
        locks := locks - {o};
      } else {
        locks := locks[o := cur - 1];
      }
      return Success(());
    }

    method Locked(o: string) returns (b: bool)
      ensures b <==> Count(locks, o) > 0
      ensures Valid() ==> (b <==> o in locks)
    {
      var cur := Count(locks, o);
      if cur <= 0 {
        return false;
      }
      return true;
    }
  }

  // ---------------------------------------------------------------------------
  // The file behind a data block, as a source of chunks
  // ---------------------------------------------------------------------------

  function Flatten(chunks: seq<bytes>): (r: bytes)
  {
    if chunks == [] then [] else chunks[0] + Flatten(chunks[1..])
  }

  /** `f_obj.read(want)`: the next chunk that has reached the file, cut to
      `want` bytes; what is cut off stays for the next read.  An empty chunk
      is a read that finds nothing new. */
  function FileRead(incoming: seq<bytes>, want: nat): (r: (bytes, seq<bytes>))
    ensures |r.0| <= want
    ensures r.0 + Flatten(r.1) == Flatten(incoming)
  {
    if incoming == [] then ([], [])
    else if |incoming[0]| <= want then (incoming[0], incoming[1..])
    else
      var head := incoming[0];
      assert head == head[..want] + head[want..];
      assert Flatten([head[want..]] + incoming[1..]) == head[want..] + Flatten(incoming[1..]) by {
        assert ([head[want..]] + incoming[1..])[1..] == incoming[1..];
      }
      (head[..want], [head[want..]] + incoming[1..])
  }

  /** What the retry loop of __read_buf ends with. */
  datatype Tried = Tried(data: bytes, seek: nat, incoming: seq<bytes>, timedOut: bool)

  /** The retry loop of __read_buf: up to `tries` reads of the missing
      `remained` bytes, stopping once they are all there or once the seek
      reaches the expected block length; running out of tries times out. */
  function ReadTries(expected: nat, seek: nat, remained: nat, incoming: seq<bytes>, tries: nat): (o: Tried)
    ensures |o.data| <= remained && o.seek == seek + |o.data|
    ensures tries == 0 ==> o.timedOut
    decreases tries
  {
    if tries == 0 then Tried([], seek, incoming, true)
    else
      var (d, rest) := FileRead(incoming, remained);
      var s := seek + |d|;
      if remained - |d| == 0 || expected <= s then Tried(d, s, rest, false)
      else
        var o := ReadTries(expected, s, remained - |d|, rest, tries - 1);
        o.(data := d + o.data)
  }

  /** __read_buf returns at most what it was asked for, loses no byte of the
      file, advances the seek by exactly what it returns, and comes back short
      only at the end of the block or on a timeout. */
  lemma {:induction false} ReadTriesFacts(expected: nat, seek: nat, remained: nat, incoming: seq<bytes>, tries: nat)
    ensures var o := ReadTries(expected, seek, remained, incoming, tries);
      |o.data| <= remained &&
      o.seek == seek + |o.data| &&
      o.data + Flatten(o.incoming) == Flatten(incoming) &&
      (!o.timedOut && |o.data| < remained ==> expected <= o.seek) &&
      (o.timedOut ==> |o.data| < remained || remained == 0)
    decreases tries
  {
    if tries > 0 {
      var (d, rest) := FileRead(incoming, remained);
      var s := seek + |d|;
      if !(remained - |d| == 0 || expected <= s) {
        ReadTriesFacts(expected, s, remained - |d|, rest, tries - 1);
        var o := ReadTries(expected, s, remained - |d|, rest, tries - 1);
        assert d + o.data + Flatten(o.incoming) == d + (o.data + Flatten(o.incoming));
      }
    }
  }

  /** `o0` is `o` with `ret` read before it. */
  predicate Resumes(o0: Tried, ret: bytes, o: Tried)
  {
    o0 == o.(data := ret + o.data)
  }

  /** One more try of the retry loop, seen from the outcome of the whole loop. */
  lemma ResumeStep(o0: Tried, ret: bytes, e: nat, s: nat, rem: nat, inc: seq<bytes>, k: nat)
    requires k > 0 && Resumes(o0, ret, ReadTries(e, s, rem, inc, k))
    ensures var got := FileRead(inc, rem);
      var d := got.0;
      (rem - |d| == 0 || e <= s + |d| ==> o0 == Tried(ret + d, s + |d|, got.1, false)) &&
      (!(rem - |d| == 0 || e <= s + |d|) ==> Resumes(o0, ret + d, ReadTries(e, s + |d|, rem - |d|, got.1, k - 1)))
  {
    var got := FileRead(inc, rem);
    var d := got.0;
    if !(rem - |d| == 0 || e <= s + |d|) {
      var o := ReadTries(e, s + |d|, rem - |d|, got.1, k - 1);
      assert ret + (d + o.data) == (ret + d) + o.data;
    }
  }

  // ---------------------------------------------------------------------------
  // DataBlock
  // ---------------------------------------------------------------------------

  /** The encoder SECURITY_MANAGER.get_encoder(raw_len) hands a block. */
  datatype Codec = Codec(encrypt: (bytes, bool) -> bytes, decrypt: bytes -> bytes, expectedLen: nat)

  class DataBlock {
    /** `self.__path` */
    const path: string
    /** the encoder, when DataBlock.SECURITY_MANAGER is set */
    const codec: Option<Codec>
    /** DataBlock.LOCK_MANAGER */
    const lockManager: DBLocksManager?
    /** BUF_LEN */
    const bufLen: nat
    /** READ_TRY_COUNT */
    const tryCount: nat

    /** `self.__seek` */
    var seek: nat
    /** `self.__rest_str` */
    var restStr: bytes
    /** `self.__locked` */
    var locked: bool
    /** the bytes write has appended to the file */
    var written: bytes
    /** what successive reads of the file return from the current seek on */
    var incoming: seq<bytes>
    /** every decrypted byte read has taken from the file so far */
    ghost var plain: bytes

    ghost predicate Valid()
      reads this
    {
      locked ==> lockManager != null
    }

    /** `self.__expected_len`, read the way `not self.__expected_len` does:
        both None and 0 count as unknown. */
    function ExpectedLen(): (r: Option<nat>)
      reads this
      ensures r.Some? ==> codec.Some? && r.value == codec.value.expectedLen > 0
    {
      if codec.Some? && codec.value.expectedLen != 0 then Some(codec.value.expectedLen) else None
    }

    /** A new block registers its path with the lock manager, once. */
    constructor(path: string, codec: Option<Codec>, lockManager: DBLocksManager?, bufLen: nat, tryCount: nat, incoming: seq<bytes>)
      modifies lockManager
      ensures Valid()
      ensures this.path == path && this.codec == codec && this.lockManager == lockManager
      ensures this.bufLen == bufLen && this.tryCount == tryCount && this.incoming == incoming
      ensures seek == 0 && restStr == [] && written == [] && plain == []
      ensures lockManager != null ==> locked && lockManager.locks == Incremented(old(lockManager.locks), path)
      ensures lockManager == null ==> !locked
    {
      this.path := path;
      this.codec := codec;
      this.lockManager := lockManager;
      this.bufLen := bufLen;
      this.tryCount := tryCount;
      this.incoming := incoming;
      seek := 0;
      restStr := [];
      written := [];
      plain := [];
      locked := false;
      new;
      if lockManager != null {
        lockManager.Set(path);
        locked := true;
      }
    }

    /** Encrypts (with an encoder) and appends to the file; the seek grows by
        the length of what was written, after encryption. */
    method Write(data: bytes, finalize: bool) returns (out: bytes)
      modifies this
      ensures out == (if codec.Some? then codec.value.encrypt(data, finalize) else data)
      ensures written == old(written) + out && seek == old(seek) + |out|
      ensures restStr == old(restStr) && locked == old(locked) && incoming == old(incoming) && plain == old(plain)
    {
      out := data;
      if codec.Some? {
        out := codec.value.encrypt(data, finalize);
      }
      written := written + out;
      seek := seek + |out|;
    }

    /** Releases the path's lock if this block still holds it; a second
        close releases nothing. */
    method Close() returns (r: Result<(), Error>)
      requires Valid()
      modifies this, lockManager
      ensures Valid()
      ensures seek == old(seek) && restStr == old(restStr) && written == old(written)
      ensures incoming == old(incoming) && plain == old(plain)
      ensures !old(locked) ==> r.Success? && !locked && (lockManager != null ==> lockManager.locks == old(lockManager.locks))
      ensures old(locked) ==> lockManager != null
      ensures old(locked) && lockManager != null && Decremented(old(lockManager.locks), path).Success? ==>
        r.Success? && !locked && lockManager.locks == Decremented(old(lockManager.locks), path).value
      ensures old(locked) && lockManager != null && Decremented(old(lockManager.locks), path).Failure? ==>
        r == Failure(KeyError) && locked && lockManager.locks == old(lockManager.locks)
    {
      if locked {
        var released := lockManager.Release(path);
        if released.Failure? {
          return Failure(released.error);
        }
        locked := false;
      }
      return Success(());
    }

    /** __read_buf(n) */
    method ReadBuf(n: nat) returns (r: Result<Option<bytes>, Error>)
      modifies this
      ensures ExpectedLen().None? ==> r == Failure(UnknownBlockSize) && seek == old(seek) && incoming == old(incoming)
      ensures ExpectedLen().Some? && ExpectedLen().value <= old(seek) ==>
        r == Success(None) && seek == old(seek) && incoming == old(incoming)
      ensures ExpectedLen().Some? && old(seek) < ExpectedLen().value ==>
        var o := ReadTries(ExpectedLen().value, old(seek), n, old(incoming), tryCount);
        seek == o.seek && incoming == o.incoming &&
        r == (if o.timedOut then Failure(ReadTimeout) else Success(Some(o.data)))
      ensures r.Success? && r.value.Some? ==>
        ExpectedLen().Some? && old(seek) < ExpectedLen().value &&
        |r.value.value| <= n && seek == old(seek) + |r.value.value|
      ensures restStr == old(restStr) && locked == old(locked) && written == old(written) && plain == old(plain)
    {
      var expected := ExpectedLen();
      if expected.None? {
        return Failure(UnknownBlockSize);
      }
      var e := expected.value;
      if e <= seek {
        return Success(None);
      }
      ReadTriesFacts(e, seek, n, incoming, tryCount);
      var ret, timedOut := RetryReads(e, n);
      if timedOut {
        return Failure(ReadTimeout);
      }
      return Success(Some(ret));
    }

    /** The `for i in xrange(READ_TRY_COUNT)` loop of __read_buf, with its
        `else: raise TimeoutException`. */
    method RetryReads(e: nat, n: nat) returns (ret: bytes, timedOut: bool)
      modifies this
      ensures ReadTries(e, old(seek), n, old(incoming), tryCount) == Tried(ret, seek, incoming, timedOut)
      ensures restStr == old(restStr) && locked == old(locked) && written == old(written) && plain == old(plain)
    {
      ghost var o0 := ReadTries(e, seek, n, incoming, tryCount);
      var cur: nat, chunks: seq<bytes> := seek, incoming;
      ret := [];
      var remained: nat := n;
      var i := 0;
      var done := false;
      while i < tryCount && !done
        invariant 0 <= i <= tryCount
        invariant !done ==> Resumes(o0, ret, ReadTries(e, cur, remained, chunks, tryCount - i))
        invariant done ==> o0 == Tried(ret, cur, chunks, false)
        modifies {}
        decreases tryCount - i
      {
        var got := FileRead(chunks, remained);
        var d := got.0;
        ResumeStep(o0, ret, e, cur, remained, chunks, tryCount - i);
        chunks := got.1;
        cur := cur + |d|;
        ret := ret + d;
        remained := remained - |d|;
        if remained != 0 {
          if e <= cur {
            done := true;
          }
        } else {
          done := true;
        }
        i := i + 1;
      }
      seek, incoming := cur, chunks;
      timedOut := !done;
    }

    /** read(rlen): the carried-over rest first, then decrypted chunks of
        BUF_LEN raw bytes until rlen characters are there or the block is
        exhausted; the surplus is kept for the next call. */
    method Read(rlen: Option<nat>) returns (r: Result<bytes, Error>)
      modifies this
      ensures |old(plain)| <= |plain| && plain[..|old(plain)|] == old(plain)
      ensures r.Success? ==> old(restStr) + plain[|old(plain)|..] == r.value + restStr
      ensures r.Success? && rlen.Some? && rlen.value > 0 ==> |r.value| <= rlen.value
      ensures r.Success? && (rlen.None? || rlen.value == 0 || |r.value| < rlen.value) ==> restStr == []
      ensures r.Failure? ==> restStr == []
      ensures locked == old(locked) && written == old(written)
    {
      var ret := restStr;
      restStr := [];
      ghost var p0 := plain;
      while true
        invariant |p0| <= |plain| && plain[..|p0|] == p0
        invariant old(restStr) + plain[|p0|..] == ret
        invariant restStr == [] && p0 == old(plain)
        invariant locked == old(locked) && written == old(written)
        decreases if ExpectedLen().Some? && seek < ExpectedLen().value then ExpectedLen().value - seek else 0
      {
        if rlen.Some? && rlen.value > 0 && |ret| >= rlen.value {
          restStr := ret[rlen.value..];
          ret := ret[..rlen.value];
          break;
        }
        var data := ReadBuf(bufLen);
        if data.Failure? {
          return Failure(data.error);
        }
        if data.value.None? || data.value.value == [] {
          break;
        }
        var clear := codec.value.decrypt(data.value.value);
        plain := plain + clear;
        ret := ret + clear;
      }
      return Success(ret);
    }
  }
}
