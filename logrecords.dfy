/**
 * The two kinds of write-ahead log record the data manager writes and the
 * recovery replays:
 *
 *   insert  [0][xid 8B][page number 4B][offset 2B][raw slot]
 *   update  [1][xid 8B][uid 8B][old slot bytes][new slot bytes]
 *
 * A record whose first byte is 0 is an insert; any other first byte makes
 * it an update.
 */
module LogRecords {
  import opened Wrappers
  import opened Bytes
  import opened Codec
  import opened Pages

  const LOG_TYPE_INSERT: byte := 0
  const LOG_TYPE_UPDATE: byte := 1

  const OF_TYPE: int := 0
  const OF_XID: int := OF_TYPE + 1
  const OF_INSERT_PGNO: int := OF_XID + 8
  const OF_INSERT_OFFSET: int := OF_INSERT_PGNO + 4
  const OF_INSERT_RAW: int := OF_INSERT_OFFSET + 2
  const OF_UPDATE_UID: int := OF_XID + 8
  const OF_UPDATE_RAW: int := OF_UPDATE_UID + 8

  /** `isInsertLog`: reading the type byte of an empty record faults. */
  function IsInsertLog(log: seq<byte>): (r: Result<bool>)
    ensures r.Ok? <==> |log| >= 1
    ensures r.Ok? ==> (r.value <==> log[OF_TYPE] == LOG_TYPE_INSERT)
  {
    if |log| == 0 then Err(IndexOutOfBounds) else Ok(log[OF_TYPE] == LOG_TYPE_INSERT)
  }

  // ---------------------------------------------------------------
  // Insert records

  /** `insertLog`: `fso` is the page's free-space offset, where the record will land. */
  function InsertLog(xid: int, pgNo: int, fso: int, raw: seq<byte>): (r: seq<byte>)
    requires IsInt64(xid) && IsInt32(pgNo) && IsInt16(fso)
  {
    Pow256Values();
    [LOG_TYPE_INSERT] + Long2Byte(xid) + Int2Byte(pgNo) + Short2Byte(fso) + raw
  }

  datatype InsertLogInfo = InsertLogInfo(xid: int, pgNo: int, offset: int, raw: seq<byte>)

  /**
   * `parseInsertLog`: a record shorter than its fixed part makes `copyOfRange`
   * fault. A record that ends inside the page or offset field fails with
   * IndexOutOfBounds; one of 13 or 14 bytes reaches the last copy, whose
   * start 15 lies past its end 13 or 14, and fails with IllegalArgument.
   */
  function ParseInsertLog(log: seq<byte>): (r: Result<InsertLogInfo>)
    ensures r.Ok? <==> |log| >= OF_INSERT_RAW
    ensures r.Ok? ==> IsInt64(r.value.xid) && IsInt32(r.value.pgNo) && IsInt16(r.value.offset)
    ensures r.Err? ==> r.error == if |log| >= OF_INSERT_OFFSET then IllegalArgument else IndexOutOfBounds
  {
    var x :- CopyOfRange(log, OF_XID, OF_INSERT_PGNO);
    var p :- CopyOfRange(log, OF_INSERT_PGNO, OF_INSERT_OFFSET);
    var o :- CopyOfRange(log, OF_INSERT_OFFSET, OF_INSERT_RAW);
    var raw :- CopyOfRange(log, OF_INSERT_RAW, |log|);
    Ok(InsertLogInfo(ParseLong(x), ParseInt(p), ParseShort(o), raw))
  }

  /** A long-enough record parses into its fixed fields and the rest. */
  lemma {:induction false} ParseInsertLogFields(log: seq<byte>)
    requires |log| >= OF_INSERT_RAW
    ensures ParseInsertLog(log) == Ok(InsertLogInfo(
      ParseLong(log[OF_XID..OF_INSERT_PGNO]), ParseInt(log[OF_INSERT_PGNO..OF_INSERT_OFFSET]),
      ParseShort(log[OF_INSERT_OFFSET..OF_INSERT_RAW]), log[OF_INSERT_RAW..]))
  {
    assert CopyOfRange(log, OF_XID, OF_INSERT_PGNO) == Ok(log[OF_XID..OF_INSERT_PGNO]);
    assert CopyOfRange(log, OF_INSERT_PGNO, OF_INSERT_OFFSET) == Ok(log[OF_INSERT_PGNO..OF_INSERT_OFFSET]);
    assert CopyOfRange(log, OF_INSERT_OFFSET, OF_INSERT_RAW) == Ok(log[OF_INSERT_OFFSET..OF_INSERT_RAW]);
    assert log[OF_INSERT_RAW..|log|] == log[OF_INSERT_RAW..];
    assert CopyOfRange(log, OF_INSERT_RAW, |log|) == Ok(log[OF_INSERT_RAW..]);
  }

  /** An insert record is recognised as one and parses back to what it was built from. */
  lemma {:induction false} InsertLogRoundTrip(xid: int, pgNo: int, fso: int, raw: seq<byte>)
    requires IsInt64(xid) && IsInt32(pgNo) && IsInt16(fso)
    ensures IsInsertLog(InsertLog(xid, pgNo, fso, raw)) == Ok(true)
    ensures ParseInsertLog(InsertLog(xid, pgNo, fso, raw)) == Ok(InsertLogInfo(xid, pgNo, fso, raw))
  {
    var a, b, c := Long2Byte(xid), Int2Byte(pgNo), Short2Byte(fso);
    LongRoundTrip(xid, []);
    IntRoundTrip(pgNo, []);
    ShortRoundTrip(fso, []);
    assert a + [] == a && b + [] == b && c + [] == c;
    var log := InsertLog(xid, pgNo, fso, raw);
    assert log == [LOG_TYPE_INSERT] + a + b + c + raw;
    FieldsAt(log, [LOG_TYPE_INSERT], a, b, c, raw);
    ParseInsertLogFields(log);
  }

  /** The pieces of a record laid end to end are found again at their offsets. */
  lemma {:induction false} FieldsAt(log: seq<byte>, t: seq<byte>, a: seq<byte>, b: seq<byte>, c: seq<byte>, rest: seq<byte>)
    requires log == t + a + b + c + rest
    ensures log[|t|..|t| + |a|] == a
    ensures log[|t| + |a|..|t| + |a| + |b|] == b
    ensures log[|t| + |a| + |b|..|t| + |a| + |b| + |c|] == c
    ensures log[|t| + |a| + |b| + |c|..] == rest
  {
  }

  // ---------------------------------------------------------------
  // Update records

  /** `updateLog`: the slot's bytes before the change, then after it. */
  function UpdateLog(xid: int, uid: int, oldRaw: seq<byte>, newRaw: seq<byte>): (r: seq<byte>)
    requires IsInt64(xid) && IsInt64(uid)
  {
    Pow256Values();
    [LOG_TYPE_UPDATE] + Long2Byte(xid) + Long2Byte(uid) + oldRaw + newRaw
  }

  datatype UpdateLogInfo = UpdateLogInfo(xid: int, pgNo: int, offset: int, oldRaw: seq<byte>, newRaw: seq<byte>)

  /**
   * `parseUpdateLog` as written: the uid is decoded into page and offset,
   * the rest is split in two halves, and the old image is cut from byte 15
   * (the start of an insert record's raw part) instead of byte 17.
   */
  function ParseUpdateLog(log: seq<byte>): (r: Result<UpdateLogInfo>)
    ensures r.Ok? ==> IsInt64(r.value.xid) && IsInt32(r.value.pgNo) && IsInt16(r.value.offset)
    ensures r.Ok? <==> |log| >= OF_UPDATE_RAW
    ensures r.Err? ==> r.error == if 9 <= |log| <= 11 || |log| == 15 then IllegalArgument else IndexOutOfBounds
  {
    var x :- CopyOfRange(log, OF_XID, OF_UPDATE_UID);
    var u :- CopyOfRange(log, OF_UPDATE_UID, OF_UPDATE_RAW);
    var uid := ParseLong(u);
    var len := JavaDiv(|log| - OF_UPDATE_RAW, 2);
    var oldRaw :- CopyOfRange(log, OF_INSERT_RAW, OF_UPDATE_RAW + len);
    var newRaw :- CopyOfRange(log, OF_UPDATE_RAW + len, OF_UPDATE_RAW + 2 * len);
    Ok(UpdateLogInfo(ParseLong(x), UidPage(uid), UidOffset(uid), oldRaw, newRaw))
  }

  /** The corrected `parseUpdateLog`: the old image starts right after the uid. */
  function ParseUpdateLogIntended(log: seq<byte>): (r: Result<UpdateLogInfo>)
    ensures r.Ok? ==> IsInt64(r.value.xid) && IsInt32(r.value.pgNo) && IsInt16(r.value.offset)
  {
    var x :- CopyOfRange(log, OF_XID, OF_UPDATE_UID);
    var u :- CopyOfRange(log, OF_UPDATE_UID, OF_UPDATE_RAW);
    var uid := ParseLong(u);
    var len := JavaDiv(|log| - OF_UPDATE_RAW, 2);
    var oldRaw :- CopyOfRange(log, OF_UPDATE_RAW, OF_UPDATE_RAW + len);
    var newRaw :- CopyOfRange(log, OF_UPDATE_RAW + len, OF_UPDATE_RAW + 2 * len);
    Ok(UpdateLogInfo(ParseLong(x), UidPage(uid), UidOffset(uid), oldRaw, newRaw))
  }

  /**
   * Records shorter than the xid and the uid fail in either parser, with the
   * kind of the first `copyOfRange` that faults: IllegalArgument where a
   * copy's start lies past its end (the halves are negative), else
   * IndexOutOfBounds. As written, 9 to 11 bytes and 15 bytes give
   * IllegalArgument; corrected, 9 to 15 bytes do.
   */
  lemma {:induction false} ParseUpdateLogErrors(log: seq<byte>)
    requires |log| < OF_UPDATE_RAW
    ensures ParseUpdateLog(log)
      == Err(if 9 <= |log| <= 11 || |log| == 15 then IllegalArgument else IndexOutOfBounds)
    ensures ParseUpdateLogIntended(log) == Err(if 9 <= |log| <= 15 then IllegalArgument else IndexOutOfBounds)
  {
    var len := JavaDiv(|log| - OF_UPDATE_RAW, 2);
    assert 9 <= |log| ==> len == (if |log| == 9 then -4 else if |log| <= 11 then -3 else if |log| <= 13 then -2 else if |log| <= 15 then -1 else 0);
  }

  /** The split of an update record's images: half of what follows the uid each. */
  lemma {:induction false} HalfLength(n: int, len: int)
    requires n >= 0 && len == JavaDiv(n, 2)
    ensures 0 <= len && 2 * len <= n
    ensures n % 2 == 0 ==> 2 * len == n
  {
    JavaDivBounds(n, 2);
  }

  /** A record that holds the xid and the uid parses, as written, into the slices it is cut into. */
  lemma {:induction false} ParseUpdateLogFields(log: seq<byte>)
    requires |log| >= OF_UPDATE_RAW
    ensures var len := JavaDiv(|log| - OF_UPDATE_RAW, 2);
      var uid := ParseLong(log[OF_UPDATE_UID..OF_UPDATE_RAW]);
      && 0 <= len && OF_UPDATE_RAW + 2 * len <= |log|
      && ParseUpdateLog(log) == Ok(UpdateLogInfo(ParseLong(log[OF_XID..OF_UPDATE_UID]), UidPage(uid), UidOffset(uid),
           log[OF_INSERT_RAW..OF_UPDATE_RAW + len], log[OF_UPDATE_RAW + len..OF_UPDATE_RAW + 2 * len]))
      && ParseUpdateLogIntended(log) == Ok(UpdateLogInfo(ParseLong(log[OF_XID..OF_UPDATE_UID]), UidPage(uid), UidOffset(uid),
           log[OF_UPDATE_RAW..OF_UPDATE_RAW + len], log[OF_UPDATE_RAW + len..OF_UPDATE_RAW + 2 * len]))
  {
    var len := JavaDiv(|log| - OF_UPDATE_RAW, 2);
    HalfLength(|log| - OF_UPDATE_RAW, len);
    assert CopyOfRange(log, OF_XID, OF_UPDATE_UID) == Ok(log[OF_XID..OF_UPDATE_UID]);
    assert CopyOfRange(log, OF_UPDATE_UID, OF_UPDATE_RAW) == Ok(log[OF_UPDATE_UID..OF_UPDATE_RAW]);
    assert CopyOfRange(log, OF_INSERT_RAW, OF_UPDATE_RAW + len) == Ok(log[OF_INSERT_RAW..OF_UPDATE_RAW + len]);
    assert CopyOfRange(log, OF_UPDATE_RAW, OF_UPDATE_RAW + len) == Ok(log[OF_UPDATE_RAW..OF_UPDATE_RAW + len]);
    assert CopyOfRange(log, OF_UPDATE_RAW + len, OF_UPDATE_RAW + 2 * len)
      == Ok(log[OF_UPDATE_RAW + len..OF_UPDATE_RAW + 2 * len]);
  }

  /** The fields of an update record built by `updateLog`, located by slice. */
  lemma {:induction false} UpdateLogFields(xid: int, uid: int, oldRaw: seq<byte>, newRaw: seq<byte>)
    requires IsInt64(xid) && IsInt64(uid) && |oldRaw| == |newRaw|
    ensures var log := UpdateLog(xid, uid, oldRaw, newRaw);
      var n := |oldRaw|;
      && |log| == OF_UPDATE_RAW + 2 * n
      && JavaDiv(|log| - OF_UPDATE_RAW, 2) == n
      && IsInsertLog(log) == Ok(false)
      && ParseLong(log[OF_XID..OF_UPDATE_UID]) == xid
      && ParseLong(log[OF_UPDATE_UID..OF_UPDATE_RAW]) == uid
      && log[OF_UPDATE_RAW..OF_UPDATE_RAW + n] == oldRaw
      && log[OF_UPDATE_RAW + n..OF_UPDATE_RAW + 2 * n] == newRaw
      && log[OF_INSERT_RAW..OF_UPDATE_RAW + n] == Long2Byte(uid)[6..] + oldRaw
  {
    var a, b := Long2Byte(xid), Long2Byte(uid);
    LongRoundTrip(xid, []);
    LongRoundTrip(uid, []);
    assert a + [] == a && b + [] == b;
    var n := |oldRaw|;
    HalfLength(2 * n, JavaDiv(2 * n, 2));
    UpdateLogSlices([LOG_TYPE_UPDATE], a, b, oldRaw, newRaw);
  }

  /** Where the parts of an update record lie once they are laid end to end. */
  lemma {:induction false} UpdateLogSlices(t: seq<byte>, a: seq<byte>, b: seq<byte>, oldRaw: seq<byte>, newRaw: seq<byte>)
    requires |t| == 1 && |a| == 8 && |b| == 8 && |oldRaw| == |newRaw|
    ensures var log := t + a + b + oldRaw + newRaw;
      var n := |oldRaw|;
      && |log| == OF_UPDATE_RAW + 2 * n && log[0] == t[0]
      && log[OF_XID..OF_UPDATE_UID] == a && log[OF_UPDATE_UID..OF_UPDATE_RAW] == b
      && log[OF_UPDATE_RAW..OF_UPDATE_RAW + n] == oldRaw
      && log[OF_UPDATE_RAW + n..OF_UPDATE_RAW + 2 * n] == newRaw
      && log[OF_INSERT_RAW..OF_UPDATE_RAW + n] == b[6..] + oldRaw
  {
    var head := t + a + b;
    var log := head + oldRaw + newRaw;
    var n := |oldRaw|;
    assert log[..OF_UPDATE_RAW] == head;
    assert log[OF_XID..OF_UPDATE_UID] == head[OF_XID..OF_UPDATE_UID] == a;
    assert log[OF_UPDATE_UID..OF_UPDATE_RAW] == head[OF_UPDATE_UID..] == b;
    assert log[OF_INSERT_RAW..OF_UPDATE_RAW + n] == head[OF_INSERT_RAW..] + oldRaw;
  }

  /**
   * As written, an update record parses back with its xid, page, offset
   * and new image, but with an old image two bytes too long that starts
   * with the low two bytes of the uid.
   */
  lemma {:induction false} UpdateLogAsWritten(xid: int, uid: int, oldRaw: seq<byte>, newRaw: seq<byte>)
    requires IsInt64(xid) && IsInt64(uid) && |oldRaw| == |newRaw|
    ensures ParseUpdateLog(UpdateLog(xid, uid, oldRaw, newRaw))
      == Ok(UpdateLogInfo(xid, UidPage(uid), UidOffset(uid), Long2Byte(uid)[6..] + oldRaw, newRaw))
  {
    var log := UpdateLog(xid, uid, oldRaw, newRaw);
    var n := |oldRaw|;
    UpdateLogFields(xid, uid, oldRaw, newRaw);
    ParseUpdateLogFields(log);
    assert JavaDiv(|log| - OF_UPDATE_RAW, 2) == n;
    var x, u := log[OF_XID..OF_UPDATE_UID], log[OF_UPDATE_UID..OF_UPDATE_RAW];
    assert ParseLong(x) == xid && ParseLong(u) == uid;
    assert ParseUpdateLog(log) == Ok(UpdateLogInfo(ParseLong(x), UidPage(ParseLong(u)), UidOffset(ParseLong(u)),
      log[OF_INSERT_RAW..OF_UPDATE_RAW + n], log[OF_UPDATE_RAW + n..OF_UPDATE_RAW + 2 * n]));
  }

  /** The smallest instance: an update of an empty slot under uid 0 parses back with old image [0, 0]. */
  lemma {:induction false} UpdateLogAsWrittenWitness()
    ensures ParseUpdateLog(UpdateLog(1, 0, [], [])).Ok?
    ensures ParseUpdateLog(UpdateLog(1, 0, [], [])).value.oldRaw == [0, 0]
  {
    UpdateLogAsWritten(1, 0, [], []);
    Pow256Values();
    assert Long2Byte(0) == BeBytes(0, 8);
  }

  /** The corrected parser inverts `updateLog` on every record with images of equal length. */
  lemma {:induction false} UpdateLogRoundTrip(xid: int, uid: int, oldRaw: seq<byte>, newRaw: seq<byte>)
    requires IsInt64(xid) && IsInt64(uid) && |oldRaw| == |newRaw|
    ensures ParseUpdateLogIntended(UpdateLog(xid, uid, oldRaw, newRaw))
      == Ok(UpdateLogInfo(xid, UidPage(uid), UidOffset(uid), oldRaw, newRaw))
  {
    var log := UpdateLog(xid, uid, oldRaw, newRaw);
    var n := |oldRaw|;
    UpdateLogFields(xid, uid, oldRaw, newRaw);
    ParseUpdateLogFields(log);
    var x, u := log[OF_XID..OF_UPDATE_UID], log[OF_UPDATE_UID..OF_UPDATE_RAW];
    assert ParseUpdateLogIntended(log) == Ok(UpdateLogInfo(ParseLong(x), UidPage(ParseLong(u)), UidOffset(ParseLong(u)),
      log[OF_UPDATE_RAW..OF_UPDATE_RAW + n], log[OF_UPDATE_RAW + n..OF_UPDATE_RAW + 2 * n]));
  }
}
