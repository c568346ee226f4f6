/**
 * The transaction ledger: an 8-byte big-endian counter of the transactions
 * ever begun, then one status byte per transaction id, id 1 first.
 * Transaction 0 is the super transaction; it has no byte and counts as
 * committed.
 */
module Ledger {
  import opened Wrappers
  import opened Bytes
  import opened Codec

  const HEADER_LENGTH: nat := 8
  const FIELD_SIZE: nat := 1

  const ACTIVE: byte := 0
  const COMMITTED: byte := 1
  const ABORTED: byte := 2

  const SUPER_XID: int := 0

  /**
   * `getXidPosition`: where the status byte of `xid` lives, in `long`
   * arithmetic. For a `long` id it is exact from -7 to 2^63 - 8, so every
   * id from 1 to 2^63 - 8 has its byte after the header; the last seven
   * ids wrap to a negative position, and so does every id below -7.
   */
  function XidPosition(xid: int): (r: int)
    ensures IsInt64(r)
    ensures -7 <= xid <= TWO_63 - 8 ==> r == HEADER_LENGTH + (xid - 1) * FIELD_SIZE
    ensures IsInt64(xid) && !(-7 <= xid <= TWO_63 - 8) ==> r < 0
  {
    PositionWraps(xid);
    Wrap64(HEADER_LENGTH + Wrap64((xid - 1) * FIELD_SIZE))
  }

  /** The two wraps of `getXidPosition`'s sum, case by case. */
  lemma {:induction false} PositionWraps(xid: int)
    ensures var p := Wrap64(HEADER_LENGTH + Wrap64((xid - 1) * FIELD_SIZE));
      && (-7 <= xid <= TWO_63 - 8 ==> p == HEADER_LENGTH + (xid - 1) * FIELD_SIZE)
      && (IsInt64(xid) && !(-7 <= xid <= TWO_63 - 8) ==> p < 0)
  {
    if xid == -TWO_63 {
      Wrap64Once(xid - 1);
      Wrap64Once(HEADER_LENGTH + TWO_63 - 1);
    } else if IsInt64(xid) {
      WrapModId(xid - 1, TWO_64);
      if -7 <= xid <= TWO_63 - 8 {
        WrapModId(HEADER_LENGTH + xid - 1, TWO_64);
      } else if xid < -7 {
        WrapModId(HEADER_LENGTH + xid - 1, TWO_64);
      } else {
        Wrap64Once(HEADER_LENGTH + xid - 1);
      }
    } else if -7 <= xid <= TWO_63 - 8 {
      assert false;
    }
  }

  /** Two `long` ids with a byte in the file share it only when they are the same id. */
  lemma {:induction false} XidPositionInjective(x: int, y: int)
    requires IsInt64(x) && IsInt64(y) && XidPosition(x) >= 0 && XidPosition(y) >= 0
    ensures XidPosition(x) == XidPosition(y) <==> x == y
  {
  }

  /**
   * `checkXIDCounter`: the counter a ledger file holds, or why it is
   * rejected (shorter than the header, or not one byte per counted id).
   */
  function Check(f: seq<byte>): (r: Result<int>)
  {
    if |f| < HEADER_LENGTH then Err(BadXidFile)
    else
      var c := ParseLong(f[..HEADER_LENGTH]);
      if XidPosition(Wrap64(c + 1)) != |f| then Err(BadXidFile) else Ok(c)
  }

  lemma {:induction false} Wrap64Max()
    ensures Wrap64(TWO_63) == -TWO_63
  {
  }

  /** A ledger is accepted exactly when its counter is its length less the header. */
  lemma {:induction false} CheckAccepts(f: seq<byte>)
    ensures Check(f).Ok? ==> |f| >= HEADER_LENGTH && Check(f).value == ParseLong(f[..HEADER_LENGTH]) == |f| - HEADER_LENGTH
    ensures Check(f).Ok? ==> Check(f).value <= TWO_63 - 9
    ensures |f| >= HEADER_LENGTH && ParseLong(f[..HEADER_LENGTH]) == |f| - HEADER_LENGTH && |f| < TWO_63 ==> Check(f).Ok?
  {
    if |f| >= HEADER_LENGTH {
      var c := ParseLong(f[..HEADER_LENGTH]);
      if c + 1 < TWO_63 {
        WrapModId(c + 1, TWO_64);
      } else {
        Wrap64Max();
      }
    }
  }

  lemma {:induction false} BeValueZeros(n: nat)
    ensures BeValue(Zeros(n)) == 0
  {
    if n > 0 {
      assert Zeros(n)[..n - 1] == Zeros(n - 1);
      BeValueZeros(n - 1);
    }
  }

  /** The file `create` writes, eight zero bytes, is a ledger with counter 0. */
  lemma {:induction false} CheckCreated()
    ensures Check(Zeros(HEADER_LENGTH)) == Ok(0)
  {
    var z := Zeros(HEADER_LENGTH);
    assert z[..HEADER_LENGTH] == z && z[..8] == z;
    BeValueZeros(8);
    Pow256Values();
    CheckAccepts(z);
  }

  /**
   * The status byte of `xid` as `checkXID` reads it: zero past the end of
   * the file, and a fault when the position is negative.
   */
  function StatusAt(f: seq<byte>, xid: int): (r: Result<byte>)
    ensures r.Ok? <==> XidPosition(xid) >= 0
  {
    var pos := XidPosition(xid);
    if pos < 0 then Err(IllegalArgument) else Ok(ReadAt(f, pos, FIELD_SIZE)[0])
  }

  function Is(f: seq<byte>, xid: int, status: byte): Result<bool>
  {
    var s :- StatusAt(f, xid); Ok(s == status)
  }

  /** `isActive`: false for the super transaction without reading the file. */
  function Active(f: seq<byte>, xid: int): Result<bool>
  {
    if xid == SUPER_XID then Ok(false) else Is(f, xid, ACTIVE)
  }

  /** `isAborted`. */
  function Aborted(f: seq<byte>, xid: int): Result<bool>
  {
    if xid == SUPER_XID then Ok(false) else Is(f, xid, ABORTED)
  }

  /** `isCommitted`: true for the super transaction. */
  function Committed(f: seq<byte>, xid: int): Result<bool>
  {
    if xid == SUPER_XID then Ok(true) else Is(f, xid, COMMITTED)
  }

  /**
   * The three queries agree with the status byte: at most one of them holds
   * for any id, the super transaction is committed only, and a byte outside
   * the three states makes all three false.
   */
  lemma {:induction false} StatusExclusive(f: seq<byte>, xid: int)
    requires StatusAt(f, xid).Ok?
    ensures var s := StatusAt(f, xid).value;
      && Active(f, xid) == Ok(xid != SUPER_XID && s == ACTIVE)
      && Aborted(f, xid) == Ok(xid != SUPER_XID && s == ABORTED)
      && Committed(f, xid) == Ok(xid == SUPER_XID || s == COMMITTED)
    ensures !(Active(f, xid) == Ok(true) && Aborted(f, xid) == Ok(true))
    ensures !(Active(f, xid) == Ok(true) && Committed(f, xid) == Ok(true))
    ensures !(Aborted(f, xid) == Ok(true) && Committed(f, xid) == Ok(true))
  {
  }

  /** Writing one id's status byte sets that id's status and no other. */
  lemma {:induction false} StatusAfterWrite(f: seq<byte>, xid: int, s: byte, y: int)
    requires IsInt64(xid) && IsInt64(y) && XidPosition(xid) >= 0 && XidPosition(y) >= 0
    ensures StatusAt(WriteAt(f, XidPosition(xid), [s]), y)
      == if y == xid then Ok(s) else StatusAt(f, y)
  {
    XidPositionInjective(xid, y);
  }

  /** `TransactionManagerImpl`: the ledger file and its counter. */
  class LedgerImpl {
    var file: seq<byte>
    var xidCounter: int

    /** The ledger would be accepted as it stands, with the counter it holds. */
    ghost predicate Valid()
      reads this
    {
      Check(file) == Ok(xidCounter)
    }

    /** `TransactionManager.create`: eight zero bytes. */
    constructor Create()
      ensures Valid() && file == Zeros(HEADER_LENGTH) && xidCounter == 0
    {
      file := Zeros(HEADER_LENGTH);
      xidCounter := 0;
      CheckCreated();
    }

    /** `TransactionManager.open`, before the constructor's check. */
    constructor Open(f: seq<byte>)
      ensures file == f && xidCounter == 0
    {
      file := f;
      xidCounter := 0;
    }

    /** `checkXIDCounter`: loads the counter and rejects a malformed ledger. */
    method CheckXidCounter() returns (res: Outcome)
      modifies this`xidCounter
      ensures res.Pass? <==> Check(file).Ok?
      ensures res.Fail? ==> res.error == BadXidFile
      ensures res.Pass? ==> Valid() && xidCounter == |file| - HEADER_LENGTH
    {
      CheckAccepts(file);
      if |file| < HEADER_LENGTH {
        return Fail(BadXidFile);
      }
      xidCounter := ParseLong(ReadAt(file, 0, HEADER_LENGTH));
      assert ReadAt(file, 0, HEADER_LENGTH) == file[..HEADER_LENGTH];
      var end := XidPosition(Wrap64(xidCounter + 1));
      if end != |file| {
        return Fail(BadXidFile);
      }
      res := Pass;
    }

    /** `updateXID`: writes one status byte; a negative position faults. */
    method UpdateXid(xid: int, status: byte) returns (res: Outcome)
      modifies this`file
      ensures res.Pass? <==> XidPosition(xid) >= 0
      ensures file == if res.Pass? then WriteAt(old(file), XidPosition(xid), [status]) else old(file)
    {
      var offset := XidPosition(xid);
      if offset < 0 {
        return Fail(IllegalArgument);
      }
      file := WriteAt(file, offset, [status]);
      res := Pass;
    }

    /** `incrXIDCounter`: a 64-bit increment, written to the header. */
    method IncrXidCounter()
      requires IsInt64(xidCounter)
      modifies this
      ensures xidCounter == Wrap64(old(xidCounter) + 1)
      ensures file == WriteAt(old(file), 0, Long2Byte(xidCounter))
    {
      xidCounter := Wrap64(xidCounter + 1);
      file := WriteAt(file, 0, Long2Byte(xidCounter));
    }

    /**
     * `begin`: the next id is active, and is counted in the header. On a
     * valid ledger the new id is the old counter plus one, the ledger stays
     * valid, the file grows by exactly that id's byte, and every earlier id
     * keeps its status.
     */
    method Begin() returns (r: Result<int>)
      requires IsInt64(xidCounter)
      modifies this
      ensures r.Ok? ==> r.value == Wrap64(old(xidCounter) + 1)
      ensures r.Ok? ==> xidCounter == r.value && XidPosition(r.value) >= 0
      ensures r.Ok? ==> file == WriteAt(WriteAt(old(file), XidPosition(r.value), [ACTIVE]), 0, Long2Byte(xidCounter))
      ensures old(Valid()) && old(xidCounter) < TWO_63 - 9 ==>
        && r == Ok(old(xidCounter) + 1) && Valid()
        && |file| == |old(file)| + 1
        && Active(file, r.value) == Ok(true)
        && forall y :: 1 <= y <= old(xidCounter) ==> StatusAt(file, y) == StatusAt(old(file), y)
    {
      ghost var f0, c0 := file, xidCounter;
      var xid := Wrap64(xidCounter + 1);
      var res := UpdateXid(xid, ACTIVE);
      if res.Fail? {
        return Err(res.error);
      }
      IncrXidCounter();
      r := Ok(xid);
      if Check(f0) == Ok(c0) && c0 < TWO_63 - 9 {
        BeginFile(f0, c0, xid, file);
      }
    }

    /** `commit`: on a counted id, it becomes committed and nothing else changes. */
    method Commit(xid: int) returns (res: Outcome)
      modifies this`file
      ensures res.Pass? <==> XidPosition(xid) >= 0
      ensures file == if res.Pass? then WriteAt(old(file), XidPosition(xid), [COMMITTED]) else old(file)
      ensures old(Valid()) && 1 <= xid <= xidCounter ==>
        && Valid()
        && Committed(file, xid) == Ok(true) && Active(file, xid) == Ok(false) && Aborted(file, xid) == Ok(false)
        && forall y :: IsInt64(y) && y != xid && XidPosition(y) >= 0 ==> StatusAt(file, y) == StatusAt(old(file), y)
    {
      res := UpdateXid(xid, COMMITTED);
      Stamped(old(file), xid, COMMITTED);
      if old(Valid()) && 1 <= xid <= xidCounter {
        StatusExclusive(file, xid);
      }
    }

    /** `abort`: on a counted id, it becomes aborted and nothing else changes. */
    method Abort(xid: int) returns (res: Outcome)
      modifies this`file
      ensures res.Pass? <==> XidPosition(xid) >= 0
      ensures file == if res.Pass? then WriteAt(old(file), XidPosition(xid), [ABORTED]) else old(file)
      ensures old(Valid()) && 1 <= xid <= xidCounter ==>
        && Valid()
        && Aborted(file, xid) == Ok(true) && Active(file, xid) == Ok(false) && Committed(file, xid) == Ok(false)
        && forall y :: IsInt64(y) && y != xid && XidPosition(y) >= 0 ==> StatusAt(file, y) == StatusAt(old(file), y)
    {
      res := UpdateXid(xid, ABORTED);
      Stamped(old(file), xid, ABORTED);
      if old(Valid()) && 1 <= xid <= xidCounter {
        StatusExclusive(file, xid);
      }
    }
  }

  /**
   * Stamping a counted id keeps the ledger valid, gives that id the new
   * status and leaves every other id alone.
   */
  lemma {:induction false} Stamped(f: seq<byte>, xid: int, s: byte)
    ensures 1 <= xid && Check(f).Ok? && xid <= Check(f).value ==>
      var g := WriteAt(f, XidPosition(xid), [s]);
      && Check(g) == Check(f)
      && StatusAt(g, xid) == Ok(s)
      && forall y :: IsInt64(y) && y != xid && XidPosition(y) >= 0 ==> StatusAt(g, y) == StatusAt(f, y)
  {
    if 1 <= xid && Check(f).Ok? && xid <= Check(f).value {
      var g := WriteAt(f, XidPosition(xid), [s]);
      CheckAccepts(f);
      assert g[..HEADER_LENGTH] == f[..HEADER_LENGTH];
      CheckAccepts(g);
      forall y | IsInt64(y) && y != xid && XidPosition(y) >= 0
        ensures StatusAt(g, y) == StatusAt(f, y)
      {
        StatusAfterWrite(f, xid, s, y);
      }
      StatusAfterWrite(f, xid, s, xid);
    }
  }

  /**
   * The file `begin` leaves behind a valid ledger: one more id, counted in
   * the header, active, and every earlier id unchanged.
   */
  lemma {:induction false} BeginFile(f: seq<byte>, c: int, xid: int, g: seq<byte>)
    requires Check(f) == Ok(c) && c < TWO_63 - 9 && xid == Wrap64(c + 1)
    requires IsInt64(xid) && g == WriteAt(WriteAt(f, XidPosition(xid), [ACTIVE]), 0, Long2Byte(xid))
    ensures xid == c + 1
    ensures Check(g) == Ok(xid) && |g| == |f| + 1
    ensures StatusAt(g, xid) == Ok(ACTIVE) && Active(g, xid) == Ok(true)
    ensures forall y :: 1 <= y <= c ==> StatusAt(g, y) == StatusAt(f, y)
  {
    WrapModId(c + 1, TWO_64);
    BeginHeader(f, c);
    BeginStatus(f, c);
  }

  /** The header `begin` writes counts the new id, and the file grows by its byte. */
  lemma {:induction false} BeginHeader(f: seq<byte>, c: int)
    requires Check(f) == Ok(c) && c < TWO_63 - 9
    ensures IsInt64(c + 1)
    ensures var g := WriteAt(WriteAt(f, XidPosition(c + 1), [ACTIVE]), 0, Long2Byte(c + 1));
      Check(g) == Ok(c + 1) && |g| == |f| + 1
  {
    CheckAccepts(f);
    var f1 := WriteAt(f, XidPosition(c + 1), [ACTIVE]);
    var h := Long2Byte(c + 1);
    LongRoundTrip(c + 1, []);
    var g := WriteAt(f1, 0, h);
    assert |f1| == |f| + 1;
    assert |g| == |f1|;
    assert g[..HEADER_LENGTH] == h + [];
    assert ParseLong(g[..HEADER_LENGTH]) == c + 1;
    WrapModId(c + 2, TWO_64);
    assert XidPosition(Wrap64(c + 2)) == |g|;
  }

  /**
   * The last id a ledger can count: once the counter is 2^63 - 9, `begin`
   * writes a ledger whose next position wraps negative, so the check on
   * the next open refuses it.
   */
  lemma {:induction false} BeginLastRefused(f: seq<byte>)
    requires Check(f) == Ok(TWO_63 - 9)
    ensures var c := TWO_63 - 9;
      var g := WriteAt(WriteAt(f, XidPosition(c + 1), [ACTIVE]), 0, Long2Byte(c + 1));
      Check(g) == Err(BadXidFile)
  {
    var c := TWO_63 - 9;
    CheckAccepts(f);
    var f1 := WriteAt(f, XidPosition(c + 1), [ACTIVE]);
    var h := Long2Byte(c + 1);
    LongRoundTrip(c + 1, []);
    var g := WriteAt(f1, 0, h);
    assert g[..HEADER_LENGTH] == h + [];
    WrapModId(c + 2, TWO_64);
  }

  /** The new id is active and every earlier id keeps its status. */
  lemma {:induction false} BeginStatus(f: seq<byte>, c: int)
    requires Check(f) == Ok(c) && c < TWO_63 - 9
    ensures IsInt64(c + 1)
    ensures var g := WriteAt(WriteAt(f, XidPosition(c + 1), [ACTIVE]), 0, Long2Byte(c + 1));
      && StatusAt(g, c + 1) == Ok(ACTIVE) && Active(g, c + 1) == Ok(true)
      && forall y :: 1 <= y <= c ==> StatusAt(g, y) == StatusAt(f, y)
  {
    CheckAccepts(f);
    var f1 := WriteAt(f, XidPosition(c + 1), [ACTIVE]);
    var g := WriteAt(f1, 0, Long2Byte(c + 1));
    forall y | 1 <= y <= c + 1
      ensures StatusAt(g, y) == StatusAt(f1, y)
    {
    }
    forall y | 1 <= y <= c
      ensures StatusAt(f1, y) == StatusAt(f, y)
    {
      StatusAfterWrite(f, c + 1, ACTIVE, y);
    }
    StatusAfterWrite(f, c + 1, ACTIVE, c + 1);
  }
}
