/**
 * The write-ahead log file.
 *
 * Layout: a 4-byte checksum of all records, then the records, each framed
 * as [size 4B][checksum 4B][data], possibly followed by a torn tail. The
 * logger keeps a read cursor (`position`), the file size seen when the log
 * was opened (`fileSize`) and the running whole-file checksum
 * (`xCheckNum`).
 */
module Logger {
  import opened Wrappers
  import opened Bytes
  import opened Codec

  const OF_SIZE: int := 0
  const OF_CHECKSUM: int := 4
  const OF_DATA: int := 8

  /** The 32-bit checksum of `calCheckSum`, continued from `acc`. */
  function CheckSum(acc: int, log: seq<byte>): (r: int)
    requires IsInt32(acc)
    ensures IsInt32(r)
  {
    Pow256Values();
    HashFold(acc, log, TWO_32)
  }

  /** Checksumming a concatenation continues from the checksum of its first part. */
  lemma {:induction false} CheckSumAppend(acc: int, a: seq<byte>, b: seq<byte>)
    requires IsInt32(acc)
    ensures CheckSum(acc, a + b) == CheckSum(CheckSum(acc, a), b)
  {
    HashFoldAppend(acc, a, b, TWO_32);
  }

  /** The checksum is Java `int` arithmetic: the exact polynomial reduced to 32 bits. */
  lemma {:induction false} CheckSumIsPoly(acc: int, log: seq<byte>)
    requires IsInt32(acc)
    ensures CheckSum(acc, log) == Wrap32(HashPoly(acc, log))
  {
    HashFoldIsPoly(acc, log, TWO_32);
  }

  method CalCheckSum(xCheck: int, log: seq<byte>) returns (r: int)
    requires IsInt32(xCheck)
    ensures r == CheckSum(xCheck, log)
  {
    r := xCheck;
    var i := 0;
    while i < |log|
      invariant 0 <= i <= |log|
      invariant r == CheckSum(xCheck, log[..i])
    {
      assert log[..i + 1][..i] == log[..i];
      r := Wrap32(r * SEED + Signed8(log[i]));
      i := i + 1;
    }
    assert log[..|log|] == log;
  }

  /** A payload whose framed record fits a Java array. */
  predicate Loggable(data: seq<byte>)
  {
    |data| < TWO_31 - OF_DATA
  }

  predicate AllLoggable(ds: seq<seq<byte>>)
  {
    forall i :: 0 <= i < |ds| ==> Loggable(ds[i])
  }

  /** A framed record: size, checksum of the data, data. */
  function WrapLog(data: seq<byte>): (r: seq<byte>)
    requires Loggable(data)
  {
    Int2Byte(|data|) + Int2Byte(CheckSum(0, data)) + data
  }

  /** The frame's fields decode back to the data's length and checksum. */
  lemma {:induction false} WrapLogFields(data: seq<byte>)
    requires Loggable(data)
    ensures |WrapLog(data)| == OF_DATA + |data|
    ensures ParseInt(WrapLog(data)) == |data|
    ensures ParseInt(WrapLog(data)[OF_CHECKSUM..]) == CheckSum(0, data)
    ensures WrapLog(data)[OF_DATA..] == data
  {
    FrameFields(|data|, CheckSum(0, data), data);
  }

  /** Two 4-byte fields ahead of `data` decode back to their values. */
  lemma {:induction false} FrameFields(x: int, y: int, data: seq<byte>)
    requires IsInt32(x) && IsInt32(y)
    ensures var w := Int2Byte(x) + Int2Byte(y) + data;
      && |w| == OF_DATA + |data| && ParseInt(w) == x && ParseInt(w[OF_CHECKSUM..]) == y && w[OF_DATA..] == data
  {
    var w := Int2Byte(x) + Int2Byte(y) + data;
    IntRoundTrip(x, Int2Byte(y) + data);
    IntRoundTrip(y, data);
    assert w == Int2Byte(x) + (Int2Byte(y) + data);
    assert w[OF_CHECKSUM..] == Int2Byte(y) + data;
  }

  /**
   * `internNext` on file `f` with the cursor at `pos` and the size `size`
   * recorded at open: the framed record there, `None` (Java `null`), or the
   * IllegalArgumentException a negative size field raises (from
   * `ByteBuffer.allocate`, or from `copyOfRange` on a frame shorter than its
   * header).
   */
  function NextAt(f: seq<byte>, pos: nat, size: int): (r: Result<Option<seq<byte>>>)
    ensures pos + OF_DATA >= size ==> r == Ok(None)
    ensures r.Ok? && r.value.Some? ==>
      pos + OF_DATA < size && OF_DATA <= |r.value.value| && pos + |r.value.value| <= size
    ensures r.Err? ==> r.error == IllegalArgument
  {
    if pos + OF_DATA >= size then Ok(None)
    else
      var sz := ParseInt(ReadAt(f, pos, 4));
      if pos + OF_DATA + sz > size then Ok(None)
      else
        var alloc := Wrap32(OF_DATA + sz);
        if alloc < 0 then Err(IllegalArgument)
        else
          var log := ReadAt(f, pos, alloc);
          if alloc < OF_DATA then Err(IllegalArgument)
          else if CheckSum(0, log[OF_DATA..]) != ParseInt(log[OF_CHECKSUM..OF_DATA]) then Ok(None)
          else
            WrapModId(OF_DATA + sz, TWO_32);
            Ok(Some(log))
  }

  /** Every record `internNext` returns is the bytes at the cursor, and is the frame of its data part. */
  lemma {:induction false} NextAtIsFrame(f: seq<byte>, pos: nat, size: int)
    requires NextAt(f, pos, size).Ok? && NextAt(f, pos, size).value.Some?
    ensures var log := NextAt(f, pos, size).value.value;
      && log == ReadAt(f, pos, |log|)
      && Loggable(log[OF_DATA..]) && log == WrapLog(log[OF_DATA..])
  {
    var sz := ParseInt(ReadAt(f, pos, 4));
    WrapModId(OF_DATA + sz, TWO_32);
    var log := ReadAt(f, pos, OF_DATA + sz);
    assert log[..4] == ReadAt(f, pos, 4);
    FrameOfFields(log);
  }

  /** A buffer whose size and checksum fields agree with its data is a frame. */
  lemma {:induction false} FrameOfFields(log: seq<byte>)
    requires |log| >= OF_DATA && Loggable(log[OF_DATA..])
    requires ParseInt(log[..4]) == |log| - OF_DATA
    requires CheckSum(0, log[OF_DATA..]) == ParseInt(log[OF_CHECKSUM..OF_DATA])
    ensures log == WrapLog(log[OF_DATA..])
  {
    IntOfBytes(log[..4]);
    IntOfBytes(log[OF_CHECKSUM..OF_DATA]);
    assert log == log[..4] + log[OF_CHECKSUM..OF_DATA] + log[OF_DATA..];
  }

  /** A whole frame that starts at the cursor and ends within `size` is returned as is. */
  lemma {:induction false} NextAtFrame(f: seq<byte>, pos: nat, size: int, data: seq<byte>)
    requires Loggable(data)
    requires pos + OF_DATA < size && pos + OF_DATA + |data| <= size
    requires pos + OF_DATA + |data| <= |f| && f[pos..pos + OF_DATA + |data|] == WrapLog(data)
    ensures NextAt(f, pos, size) == Ok(Some(WrapLog(data)))
  {
    FrameAt(f, pos, data);
    Wrap32Id(OF_DATA + |data|);
  }

  /** The fields `internNext` reads from a frame that lies at `pos`. */
  lemma {:induction false} FrameAt(f: seq<byte>, pos: nat, data: seq<byte>)
    requires Loggable(data)
    requires pos + OF_DATA + |data| <= |f| && f[pos..pos + OF_DATA + |data|] == WrapLog(data)
    ensures ParseInt(ReadAt(f, pos, 4)) == |data|
    ensures ReadAt(f, pos, OF_DATA + |data|) == WrapLog(data)
    ensures WrapLog(data)[OF_DATA..] == data
    ensures ParseInt(WrapLog(data)[OF_CHECKSUM..OF_DATA]) == CheckSum(0, data)
  {
    WrapLogFields(data);
    var w := WrapLog(data);
    assert ReadAt(f, pos, 4) == w[..4];
    IntRoundTrip(|data|, []);
    assert w[..4] == Int2Byte(|data|) + [];
    assert w[OF_CHECKSUM..OF_DATA] == w[OF_CHECKSUM..][..4];
    IntRoundTrip(CheckSum(0, data), []);
    assert w[OF_CHECKSUM..OF_DATA] == Int2Byte(CheckSum(0, data)) + [];
  }

  /**
   * The checksum over every record `internNext` returns from `pos` on,
   * continued from `acc`, and the cursor where the walk stops; or the fault
   * that stopped it.
   */
  function Scan(f: seq<byte>, pos: nat, size: int, acc: int): (r: Result<(int, nat)>)
    requires IsInt32(acc)
    ensures r.Ok? ==> IsInt32(r.value.0) && pos <= r.value.1 && (r.value.1 == pos || r.value.1 <= size)
  {
    Walk(NextOf(f, size), pos, size, acc)
  }

  /** `internNext` on file `f` and size `size`, as a function of the cursor. */
  function NextOf(f: seq<byte>, size: int): (next: nat -> Result<Option<seq<byte>>>)
    ensures Forward(next, size)
  {
    p => NextAt(f, p, size)
  }

  /** A cursor function whose every record is not empty and ends within `size`. */
  ghost predicate Forward(next: nat -> Result<Option<seq<byte>>>, size: int)
  {
    forall p: nat :: next(p).Ok? && next(p).value.Some? ==>
      OF_DATA <= |next(p).value.value| && p + |next(p).value.value| <= size
  }

  /**
   * The loop of `init` over any cursor function `next`: the checksum over
   * every record from `pos` on, continued from `acc`, and the cursor where
   * the walk stops; or the fault that stopped it.
   */
  function Walk(next: nat -> Result<Option<seq<byte>>>, pos: nat, size: int, acc: int): (r: Result<(int, nat)>)
    requires IsInt32(acc) && Forward(next, size)
    ensures r.Ok? ==> IsInt32(r.value.0) && pos <= r.value.1 && (r.value.1 == pos || r.value.1 <= size)
    decreases size - pos
  {
    match next(pos)
    case Err(e) => Err(e)
    case Ok(None) => Ok((acc, pos))
    case Ok(Some(log)) => Walk(next, pos + |log|, size, CheckSum(acc, log))
  }

  /**
   * The data parts of the records `next` returns from `pos` on, in order,
   * up to the first `null`; or the fault that stops the walk.
   */
  function Records(f: seq<byte>, pos: nat, size: int): Result<seq<seq<byte>>>
  {
    Collect(NextOf(f, size), pos, size)
  }

  /** The data parts of the records any cursor function `next` returns from `pos` on, up to the first `None`. */
  function Collect(next: nat -> Result<Option<seq<byte>>>, pos: nat, size: int): Result<seq<seq<byte>>>
    requires Forward(next, size)
    decreases size - pos
  {
    match next(pos)
    case Err(e) => Err(e)
    case Ok(None) => Ok([])
    case Ok(Some(log)) =>
      var rest :- Collect(next, pos + |log|, size);
      Ok([log[OF_DATA..]] + rest)
  }

  /** Records found so far, followed by those still to come. */
  function Prepend(seen: seq<seq<byte>>, rest: Result<seq<seq<byte>>>): Result<seq<seq<byte>>>
  {
    if rest.Ok? then Ok(seen + rest.value) else rest
  }

  /** `Records` unfolded once at a position where `next` finds a record. */
  lemma {:induction false} RecordsUnfold(f: seq<byte>, pos: nat, size: int, log: seq<byte>, at: nat)
    requires NextAt(f, pos, size).Ok? && NextAt(f, pos, size).value.Some?
    requires log == NextAt(f, pos, size).value.value[OF_DATA..]
    requires at == pos + OF_DATA + |log|
    ensures Records(f, pos, size) == Prepend([log], Records(f, at, size))
  {
    var w := NextAt(f, pos, size).value.value;
    assert |w| == OF_DATA + |log|;
  }

  /** Where `internNext` finds no record, or faults, the records from there are none, or that fault. */
  lemma {:induction false} RecordsStop(f: seq<byte>, pos: nat, size: int)
    requires !(NextAt(f, pos, size).Ok? && NextAt(f, pos, size).value.Some?)
    ensures NextAt(f, pos, size).Err? ==> Records(f, pos, size) == Err(NextAt(f, pos, size).error)
    ensures NextAt(f, pos, size).Ok? ==> Records(f, pos, size) == Ok([])
  {
  }

  /** One record read off `Records(f, pos, size) == Ok(rest)`: the first of `rest`, and the records after it. */
  lemma {:induction false} RecordsAdvance(f: seq<byte>, pos: nat, size: int, rest: seq<seq<byte>>, log: seq<byte>, at: nat)
    requires Records(f, pos, size) == Ok(rest)
    requires NextAt(f, pos, size).Ok? && NextAt(f, pos, size).value.Some?
    requires log == NextAt(f, pos, size).value.value[OF_DATA..]
    requires at == pos + OF_DATA + |log|
    ensures rest != [] && rest[0] == log && Records(f, at, size) == Ok(rest[1..])
  {
    RecordsUnfold(f, pos, size, log, at);
    assert Records(f, at, size).Ok?;
    assert rest == [log] + Records(f, at, size).value;
  }

  /** A cursor function that finds the frames `ws` one after the other delivers their data parts `ds`. */
  lemma {:induction false} FindsCollect(next: nat -> Result<Option<seq<byte>>>, size: int, ws: seq<seq<byte>>, ds: seq<seq<byte>>, pos: nat)
    requires Forward(next, size) && Finds(next, ws, pos)
    requires |ws| == |ds| && forall j :: 0 <= j < |ws| ==> |ws[j]| >= OF_DATA && ws[j][OF_DATA..] == ds[j]
    ensures Collect(next, pos, size) == Ok(ds)
    decreases |ws|
  {
    if ws != [] {
      var w := ws[0];
      assert |w| >= OF_DATA && w[OF_DATA..] == ds[0];
      FindsCollect(next, size, ws[1..], ds[1..], pos + |w|);
      assert ds == [ds[0]] + ds[1..];
    }
  }

  /** `next` on a log file written by `LogFile` delivers the logged payloads in order, then the end. */
  lemma {:induction false} RecordsLogFile(ds: seq<seq<byte>>)
    requires AllLoggable(ds) && (ds == [] || ds[|ds| - 1] != [])
    ensures Records(LogFile(ds), 4, |LogFile(ds)|) == Ok(ds)
  {
    var ws := Framed(ds);
    LogFileFinds(ds);
    forall j | 0 <= j < |ws|
      ensures |ws[j]| >= OF_DATA && ws[j][OF_DATA..] == ds[j]
    {
      WrapLogFields(ds[j]);
    }
    FindsCollect(NextOf(LogFile(ds), |LogFile(ds)|), |LogFile(ds)|, ws, ds, 4);
  }

  /**
   * What `init` concludes about a log file: the end of the last valid record,
   * or why the file is rejected (shorter than its header, a faulting record,
   * or a header that is not the checksum of the valid records).
   */
  function Check(f: seq<byte>): (r: Result<nat>)
    ensures r.Ok? ==> 4 <= r.value <= |f|
  {
    if |f| < 4 then Err(BadLogFile)
    else match Scan(f, 4, |f|, 0)
      case Err(e) => Err(e)
      case Ok((x, p)) => if x != ParseInt(f[..4]) then Err(BadLogFile) else Ok(p)
  }

  /** Byte strings laid end to end. */
  function Concat(ws: seq<seq<byte>>): (r: seq<byte>)
  {
    if ws == [] then [] else Concat(ws[..|ws| - 1]) + ws[|ws| - 1]
  }

  lemma {:induction false} ConcatAppend(a: seq<seq<byte>>, b: seq<seq<byte>>)
    ensures Concat(a + b) == Concat(a) + Concat(b)
  {
    if b == [] {
      assert a + b == a;
    } else {
      var pre := b[..|b| - 1];
      assert (a + b)[..|a + b| - 1] == a + pre;
      ConcatAppend(a, pre);
    }
  }

  /** Piece `i` of `h + Concat(ws)` sits where the pieces before it end. */
  lemma {:induction false} ConcatPiece(h: seq<byte>, ws: seq<seq<byte>>, i: nat)
    requires i < |ws|
    ensures |Concat(ws[..i + 1])| == |Concat(ws[..i])| + |ws[i]|
    ensures var pos := |h| + |Concat(ws[..i])|;
      && pos + |ws[i]| <= |h + Concat(ws)|
      && (h + Concat(ws))[pos..pos + |ws[i]|] == ws[i]
  {
    assert ws[..i + 1][..i] == ws[..i];
    assert ws == ws[..i + 1] + ws[i + 1..];
    ConcatAppend(ws[..i + 1], ws[i + 1..]);
  }

  /** The framed records of the payloads `ds`. */
  function Framed(ds: seq<seq<byte>>): (ws: seq<seq<byte>>)
    requires AllLoggable(ds)
    ensures |ws| == |ds|
  {
    seq(|ds|, i requires 0 <= i < |ds| => WrapLog(ds[i]))
  }

  /** The file a fresh log holds after logging `ds`: the checksum of all frames, then the frames. */
  function LogFile(ds: seq<seq<byte>>): (r: seq<byte>)
    requires AllLoggable(ds)
  {
    Int2Byte(CheckSum(0, Concat(Framed(ds)))) + Concat(Framed(ds))
  }

  /** Where record `k` of `ws` starts in a log file. */
  function RecordStart(ws: seq<seq<byte>>, k: nat): nat
    requires k <= |ws|
  {
    4 + |Concat(ws[..k])|
  }

  /** `internNext` finds record `k` of `ws` at its start in `f`, or the end after the last. */
  predicate Walks(f: seq<byte>, ws: seq<seq<byte>>, k: nat)
    requires k <= |ws|
  {
    NextAt(f, RecordStart(ws, k), |f|) == if k < |ws| then Ok(Some(ws[k])) else Ok(None)
  }

  /** A frame followed by another frame, or by nothing when its data is not empty, is read whole. */
  lemma {:induction false} PieceWalks(h: seq<byte>, ws: seq<seq<byte>>, k: nat, d: seq<byte>)
    requires |h| == 4 && k < |ws| && Loggable(d) && ws[k] == WrapLog(d)
    requires k + 1 < |ws| ==> |ws[k + 1]| >= OF_DATA
    requires k + 1 == |ws| ==> d != []
    ensures Walks(h + Concat(ws), ws, k)
  {
    var f := h + Concat(ws);
    ConcatPiece(h, ws, k);
    WrapLogFields(d);
    if k + 1 < |ws| {
      ConcatPiece(h, ws, k + 1);
    }
    NextAtFrame(f, RecordStart(ws, k), |f|, d);
  }

  /** `internNext` walks `LogFile(ds)` record by record, and stops after the last. */
  lemma {:induction false} LogFileWalks(ds: seq<seq<byte>>, k: nat)
    requires AllLoggable(ds) && (ds == [] || ds[|ds| - 1] != [])
    requires k <= |ds|
    ensures Walks(LogFile(ds), Framed(ds), k)
  {
    var ws := Framed(ds);
    var h := Int2Byte(CheckSum(0, Concat(ws)));
    IntRoundTrip(CheckSum(0, Concat(ws)), []);
    if k < |ds| {
      if k + 1 < |ds| {
        WrapLogFields(ds[k + 1]);
      }
      PieceWalks(h, ws, k, ds[k]);
    } else {
      assert ws[..k] == ws;
    }
  }

  /** A record read at `pos` moves the walk just past it, with the checksum taken over it. */
  lemma {:induction false} ScanStep(f: seq<byte>, pos: nat, size: int, acc: int, w: seq<byte>)
    requires IsInt32(acc) && NextAt(f, pos, size) == Ok(Some(w))
    ensures Scan(f, pos, size, acc) == Scan(f, pos + |w|, size, CheckSum(acc, w))
  {
    assert NextOf(f, size)(pos) == Ok(Some(w));
  }

  /** Where `internNext` faults or finds nothing, the walk stops: with the fault, or with the checksum so far. */
  lemma {:induction false} ScanEnd(f: seq<byte>, pos: nat, size: int, acc: int)
    requires IsInt32(acc) && (NextAt(f, pos, size).Err? || NextAt(f, pos, size).value.None?)
    ensures Scan(f, pos, size, acc) == if NextAt(f, pos, size).Err? then Err(NextAt(f, pos, size).error) else Ok((acc, pos))
  {
    assert NextOf(f, size)(pos) == NextAt(f, pos, size);
  }

  /** The cursor function `next` finds the records `ws` one after the other from `pos`, and nothing after the last. */
  ghost predicate Finds(next: nat -> Result<Option<seq<byte>>>, ws: seq<seq<byte>>, pos: nat)
    decreases |ws|
  {
    if ws == [] then next(pos) == Ok(None)
    else next(pos) == Ok(Some(ws[0])) && Finds(next, ws[1..], pos + |ws[0]|)
  }

  /**
   * When the cursor function finds the records `ws` from `pos` on, the walk
   * reads all of them, continues the checksum over them, and stops just
   * after the last.
   */
  lemma {:induction false} WalkRecords(next: nat -> Result<Option<seq<byte>>>, size: int, ws: seq<seq<byte>>, pos: nat, acc: int)
    requires IsInt32(acc) && Forward(next, size) && Finds(next, ws, pos)
    ensures Walk(next, pos, size, acc) == Ok((CheckSum(acc, Concat(ws)), pos + |Concat(ws)|))
    decreases |ws|
  {
    if ws != [] {
      var w := ws[0];
      assert ws == [w] + ws[1..];
      ConcatAppend([w], ws[1..]);
      assert Concat([w]) == w by { assert [w][..0] == ws[..0]; }
      CheckSumAppend(acc, w, Concat(ws[1..]));
      WalkRecords(next, size, ws[1..], pos + |w|, CheckSum(acc, w));
    }
  }

  /** A cursor function that finds each record of `ws` at its start finds all of them from record `i` on. */
  lemma {:induction false} FindsRecords(next: nat -> Result<Option<seq<byte>>>, ws: seq<seq<byte>>, i: nat)
    requires i <= |ws|
    requires forall k :: 0 <= k <= |ws| ==>
      next(RecordStart(ws, k)) == if k < |ws| then Ok(Some(ws[k])) else Ok(None)
    ensures Finds(next, ws[i..], RecordStart(ws, i))
    decreases |ws| - i
  {
    if i < |ws| {
      RecordAdvance(ws, i);
      FindsRecords(next, ws, i + 1);
      assert ws[i..][1..] == ws[i + 1..];
    }
  }

  /** One record further on: its start moves by the record's length and the checksum takes it in. */
  lemma {:induction false} RecordAdvance(ws: seq<seq<byte>>, i: nat)
    requires i < |ws|
    ensures RecordStart(ws, i + 1) == RecordStart(ws, i) + |ws[i]|
    ensures CheckSum(0, Concat(ws[..i + 1])) == CheckSum(CheckSum(0, Concat(ws[..i])), ws[i])
  {
    assert ws[..i + 1][..i] == ws[..i];
    assert Concat(ws[..i + 1]) == Concat(ws[..i]) + ws[i];
    CheckSumAppend(0, Concat(ws[..i]), ws[i]);
  }


  /** `init` accepts a log file written by `LogFile` and keeps all of it. */
  lemma {:induction false} CheckLogFile(ds: seq<seq<byte>>)
    requires AllLoggable(ds) && (ds == [] || ds[|ds| - 1] != [])
    ensures Check(LogFile(ds)) == Ok(|LogFile(ds)|)
  {
    var f, ws := LogFile(ds), Framed(ds);
    var x := CheckSum(0, Concat(ws));
    IntRoundTrip(x, Concat(ws));
    assert ParseInt(f[..4]) == x by {
      assert f[..4][..4] == f[..4];
      assert (Int2Byte(x) + Concat(ws))[..4] == f[..4];
    }
    LogFileFinds(ds);
    CheckFinds(f, ws);
  }

  /** `internNext` finds the frames of `ds` one after the other in `LogFile(ds)`. */
  lemma {:induction false} LogFileFinds(ds: seq<seq<byte>>)
    requires AllLoggable(ds) && (ds == [] || ds[|ds| - 1] != [])
    ensures Finds(NextOf(LogFile(ds), |LogFile(ds)|), Framed(ds), 4)
  {
    var f, ws := LogFile(ds), Framed(ds);
    forall k | 0 <= k <= |ws|
      ensures Walks(f, ws, k)
    {
      LogFileWalks(ds, k);
    }
    WalksFinds(f, ws);
  }

  /** A file in which `internNext` finds each record of `ws` at its start holds them one after the other. */
  lemma {:induction false} WalksFinds(f: seq<byte>, ws: seq<seq<byte>>)
    requires forall k :: 0 <= k <= |ws| ==> Walks(f, ws, k)
    ensures Finds(NextOf(f, |f|), ws, 4)
  {
    var next := NextOf(f, |f|);
    forall k | 0 <= k <= |ws|
      ensures next(RecordStart(ws, k)) == if k < |ws| then Ok(Some(ws[k])) else Ok(None)
    {
      assert Walks(f, ws, k);
    }
    assert ws[..0] == [] && ws[0..] == ws;
    FindsRecords(next, ws, 0);
  }

  /** A file whose header is the checksum of the records `internNext` finds after it, up to its end, passes `init`. */
  lemma {:induction false} CheckFinds(f: seq<byte>, ws: seq<seq<byte>>)
    requires |f| == 4 + |Concat(ws)| && Finds(NextOf(f, |f|), ws, 4)
    requires ParseInt(f[..4]) == CheckSum(0, Concat(ws))
    ensures Check(f) == Ok(|f|)
  {
    WalkRecords(NextOf(f, |f|), |f|, ws, 4, 0);
  }

  /** Writing 4 bytes over the header of a longer file replaces just the header. */
  lemma {:induction false} WriteHeader(f: seq<byte>, h: seq<byte>)
    requires |h| == 4 && |f| >= 4
    ensures WriteAt(f, 0, h) == h + f[4..]
  {
  }

  /** One more payload adds its frame at the end of the frames. */
  lemma {:induction false} FramedAppend(ds: seq<seq<byte>>, d: seq<byte>)
    requires AllLoggable(ds) && Loggable(d)
    ensures AllLoggable(ds + [d])
    ensures Concat(Framed(ds + [d])) == Concat(Framed(ds)) + WrapLog(d)
  {
    var ws := Framed(ds);
    assert Framed(ds + [d]) == ws + [WrapLog(d)];
    assert (ws + [WrapLog(d)])[..|ws|] == ws;
  }

  /** A file whose header is replaced by the checksum of its body. */
  lemma {:induction false} Reheader(body: seq<byte>, x: int, y: int, w: seq<byte>)
    requires IsInt32(x) && IsInt32(y)
    ensures WriteAt(Int2Byte(x) + body + w, 0, Int2Byte(y)) == Int2Byte(y) + (body + w)
  {
    IntRoundTrip(x, []);
    IntRoundTrip(y, []);
    var g := Int2Byte(x) + body + w;
    assert g[4..] == body + w;
    WriteHeader(g, Int2Byte(y));
  }

  /** Logging one more record onto `LogFile(ds)` gives `LogFile(ds + [d])`. */
  lemma {:induction false} LogFileAppend(ds: seq<seq<byte>>, d: seq<byte>)
    requires AllLoggable(ds) && Loggable(d)
    ensures AllLoggable(ds + [d])
    ensures CheckSum(CheckSum(0, Concat(Framed(ds))), WrapLog(d)) == CheckSum(0, Concat(Framed(ds + [d])))
    ensures WriteAt(LogFile(ds) + WrapLog(d), 0, Int2Byte(CheckSum(0, Concat(Framed(ds + [d])))))
      == LogFile(ds + [d])
  {
    FramedAppend(ds, d);
    var body := Concat(Framed(ds));
    CheckSumAppend(0, body, WrapLog(d));
    Reheader(body, CheckSum(0, body), CheckSum(0, Concat(Framed(ds + [d]))), WrapLog(d));
  }

  /** `LogFileAppend` on the prefixes of `ds`: logging `ds[i]` onto `LogFile(ds[..i])` gives `LogFile(ds[..i + 1])`. */
  lemma {:induction false} LogFilePrefix(ds: seq<seq<byte>>, i: nat)
    requires AllLoggable(ds) && i < |ds|
    ensures AllLoggable(ds[..i]) && Loggable(ds[i])
    ensures CheckSum(CheckSum(0, Concat(Framed(ds[..i]))), WrapLog(ds[i])) == CheckSum(0, Concat(Framed(ds[..i + 1])))
    ensures WriteAt(LogFile(ds[..i]) + WrapLog(ds[i]), 0, Int2Byte(CheckSum(0, Concat(Framed(ds[..i + 1])))))
      == LogFile(ds[..i + 1])
  {
    assert ds[..i + 1] == ds[..i] + [ds[i]];
    LogFileAppend(ds[..i], ds[i]);
  }

  /**
   * Reading past the end of the file but within a stale size yields an empty
   * record of eight zero bytes: the read buffer stays zero, and zero is the
   * checksum of no data.
   */
  lemma {:induction false} NextAtPastEnd(f: seq<byte>, pos: nat, size: int)
    requires pos >= |f| && pos + OF_DATA < size
    ensures NextAt(f, pos, size) == Ok(Some(Zeros(OF_DATA)))
  {
    assert ReadAt(f, pos, 4) == Int2Byte(0) by {
      assert Int2Byte(0) == [0, 0, 0, 0] by {
        Pow256Values();
        assert 0 % Pow256(4) == 0;
        assert BeBytes(0, 4) == [0, 0, 0, 0];
      }
    }
    assert ParseInt(ReadAt(f, pos, 4)) == 0 by {
      IntRoundTrip(0, []);
      assert Int2Byte(0) + [] == Int2Byte(0);
    }
    WrapModId(OF_DATA, TWO_32);
    var log := ReadAt(f, pos, OF_DATA);
    assert log[OF_DATA..] == [];
    assert log[OF_CHECKSUM..OF_DATA] == Int2Byte(0);
    assert log == Zeros(OF_DATA);
  }

  class LoggerImpl {
    var file: seq<byte>
    var position: int
    var fileSize: int
    var xCheckNum: int

    ghost predicate Valid()
      reads this`position, this`xCheckNum
    {
      position >= 0 && IsInt32(xCheckNum)
    }

    /** `Logger.create`: a fresh file holding a zero checksum and no record. */
    constructor Create()
      ensures Valid()
      ensures file == LogFile([]) && xCheckNum == CheckSum(0, Concat(Framed([])))
      ensures position == 0 && fileSize == 0
    {
      file := Int2Byte(0);
      position := 0;
      fileSize := 0;
      xCheckNum := 0;
    }

    /** `Logger.open` before `init` runs: the fields keep Java's defaults. */
    constructor Open(f: seq<byte>)
      ensures Valid() && file == f && position == 0 && fileSize == 0 && xCheckNum == 0
    {
      file := f;
      position := 0;
      fileSize := 0;
      xCheckNum := 0;
    }

    method Rewind()
      modifies this`position
      ensures position == OF_SIZE + 4
    {
      position := OF_SIZE + 4;
    }

    /** `FileChannel.truncate`: shortens the file to `x` bytes when it is longer. */
    method Truncate(x: int) returns (res: Outcome)
      modifies this`file
      ensures res.Pass? <==> x >= 0
      ensures file == if x >= 0 && x < |old(file)| then old(file)[..x] else old(file)
    {
      if x < 0 {
        return Fail(IllegalArgument);
      }
      if x < |file| {
        file := file[..x];
      }
      res := Pass;
    }

    method InternNext() returns (r: Result<Option<seq<byte>>>)
      requires Valid()
      modifies this`position
      ensures Valid()
      ensures r == NextAt(file, old(position), fileSize)
      ensures position == if r.Ok? && r.value.Some? then old(position) + |r.value.value| else old(position)
    {
      if position + OF_DATA >= fileSize {
        return Ok(None);
      }
      var sz := ParseInt(ReadAt(file, position, 4));
      if position + OF_DATA + sz > fileSize {
        return Ok(None);
      }
      var alloc := Wrap32(OF_DATA + sz);
      if alloc < 0 {
        return Err(IllegalArgument);
      }
      var log := ReadAt(file, position, alloc);
      if alloc < OF_DATA {
        return Err(IllegalArgument);
      }
      var checkSum1 := CalCheckSum(0, log[OF_DATA..]);
      var checkSum2 := ParseInt(log[OF_CHECKSUM..OF_DATA]);
      if checkSum1 != checkSum2 {
        return Ok(None);
      }
      position := position + |log|;
      r := Ok(Some(log));
    }

    /** `next`: the data part of the record at the cursor. */
    method Next() returns (r: Result<Option<seq<byte>>>)
      requires Valid()
      modifies this`position
      ensures Valid()
      ensures var n := NextAt(file, old(position), fileSize);
        && (r.Ok? <==> n.Ok?)
        && (r.Err? ==> r.error == n.error)
        && (r.Ok? ==> (r.value.Some? <==> n.value.Some?))
        && (r.Ok? && r.value.Some? ==> r.value.value == n.value.value[OF_DATA..])
      ensures position == if r.Ok? && r.value.Some? then old(position) + OF_DATA + |r.value.value| else old(position)
    {
      var log :- InternNext();
      if log.None? {
        return Ok(None);
      }
      r := Ok(Some(log.value[OF_DATA..]));
    }

    /** `log`: appends the framed record at the end and rewrites the header checksum. */
    method Log(data: seq<byte>)
      requires Valid() && Loggable(data)
      modifies this`file, this`xCheckNum
      ensures Valid()
      ensures xCheckNum == CheckSum(old(xCheckNum), WrapLog(data))
      ensures file == WriteAt(old(file) + WrapLog(data), 0, Int2Byte(xCheckNum))
    {
      var log := WrapLog(data);
      file := file + log;
      UpdateXCheckSum(log);
    }

    method UpdateXCheckSum(log: seq<byte>)
      requires Valid()
      modifies this`file, this`xCheckNum
      ensures Valid()
      ensures xCheckNum == CheckSum(old(xCheckNum), log)
      ensures file == WriteAt(old(file), 0, Int2Byte(xCheckNum))
    {
      xCheckNum := CalCheckSum(xCheckNum, log);
      file := WriteAt(file, 0, Int2Byte(xCheckNum));
    }

    /**
     * `init`: rejects a file shorter than its header, reads the header, then
     * checks and removes a torn tail.
     */
    method Init() returns (res: Outcome)
      requires Valid()
      modifies this
      ensures Valid()
      ensures res.Pass? <==> Check(old(file)).Ok?
      ensures res.Fail? ==> res.error == Check(old(file)).error
      ensures res.Pass? ==>
        && file == old(file)[..Check(old(file)).value]
        && position == 4 && fileSize == |old(file)| && xCheckNum == ParseInt(old(file)[..4])
    {
      var size := |file|;
      if size < 4 {
        return Fail(BadLogFile);
      }
      xCheckNum := ParseInt(ReadAt(file, 0, 4));
      fileSize := size;
      res := CheckAndRemoveTail();
    }

    /**
     * Walks every valid record, compares the checksum of all of them with
     * the header, cuts the file after the last valid record and rewinds.
     */
    method CheckAndRemoveTail() returns (res: Outcome)
      requires Valid() && fileSize == |file| >= 4
      modifies this`position, this`file
      ensures Valid()
      ensures match Scan(old(file), 4, fileSize, 0)
        case Err(e) => res == Fail(e)
        case Ok((x, p)) =>
          if x != xCheckNum then res == Fail(BadLogFile)
          else res == Pass && file == old(file)[..p] && position == 4
    {
      Rewind();
      var sum := SumRecords();
      if sum.Err? {
        return Fail(sum.error);
      }
      if sum.value != xCheckNum {
        return Fail(BadLogFile);
      }
      var t := Truncate(position);
      Rewind();
      res := Pass;
    }

    /**
     * The loop of `checkAndRemoveTail`: reads records from the cursor until
     * `internNext` reports the end, summing their checksum from zero; the
     * cursor stays after the last record read.
     */
    method SumRecords() returns (sum: Result<int>)
      requires Valid() && fileSize == |file| && position <= fileSize
      modifies this`position
      ensures Valid()
      ensures Scan(file, old(position), fileSize, 0)
        == match sum case Err(e) => Err(e) case Ok(x) => Ok((x, position))
    {
      var xCheck := 0;
      ghost var target := Scan(file, position, fileSize, 0);
      while true
        invariant Valid() && position <= fileSize && IsInt32(xCheck)
        invariant Scan(file, position, fileSize, xCheck) == target
        decreases fileSize - position
      {
        ghost var p0 := position;
        var log := InternNext();
        if log.Err? || log.value.None? {
          ScanEnd(file, p0, fileSize, xCheck);
          return if log.Err? then Err(log.error) else Ok(xCheck);
        }
        var w := log.value.value;
        ghost var acc := CheckSum(xCheck, w);
        ScanStep(file, p0, fileSize, xCheck, w);
        assert position == p0 + |w|;
        assert Scan(file, position, fileSize, acc) == target;
        xCheck := CalCheckSum(xCheck, w);
      }
    }
  }

  /** Logs every payload of `ds` on a fresh log. */
  method LogAll(ds: seq<seq<byte>>) returns (lg: LoggerImpl)
    requires AllLoggable(ds)
    ensures fresh(lg) && lg.Valid() && lg.file == LogFile(ds)
  {
    lg := new LoggerImpl.Create();
    assert ds[..0] == [];
    assert Framed([]) == [];
    for i := 0 to |ds|
      invariant lg.Valid()
      invariant lg.file == LogFile(ds[..i]) && lg.xCheckNum == CheckSum(0, Concat(Framed(ds[..i])))
    {
      LogFilePrefix(ds, i);
      lg.Log(ds[i]);
    }
    assert ds[..|ds|] == ds;
  }

  /** One `next` on a cursor whose records from there are `rest`: the first of them, or the end when `rest` is empty. */
  method ReadRecord(reader: LoggerImpl, ghost rest: seq<seq<byte>>) returns (r: Result<Option<seq<byte>>>)
    requires reader.Valid() && Records(reader.file, reader.position, reader.fileSize) == Ok(rest)
    modifies reader`position
    ensures reader.Valid()
    ensures r.Ok? && r.value.Some? ==>
      rest != [] && r.value.value == rest[0] && Records(reader.file, reader.position, reader.fileSize) == Ok(rest[1..])
    ensures !(r.Ok? && r.value.Some?) ==> rest == []
  {
    ghost var p0 := reader.position;
    r := reader.Next();
    if r.Ok? && r.value.Some? {
      RecordsAdvance(reader.file, p0, reader.fileSize, rest, r.value.value, reader.position);
    } else {
      RecordsStop(reader.file, p0, reader.fileSize);
    }
  }

  /** Reads records from the cursor until `next` reports the end: exactly the payloads `Records` finds there. */
  method ReadBack(reader: LoggerImpl, ghost ds: seq<seq<byte>>) returns (payloads: seq<seq<byte>>)
    requires reader.Valid() && Records(reader.file, reader.position, reader.fileSize) == Ok(ds)
    modifies reader`position
    ensures payloads == ds
  {
    payloads := [];
    while true
      invariant reader.Valid() && |payloads| <= |ds| && payloads == ds[..|payloads|]
      invariant Records(reader.file, reader.position, reader.fileSize) == Ok(ds[|payloads|..])
      decreases |ds| - |payloads|
    {
      ghost var rest := ds[|payloads|..];
      var r := ReadRecord(reader, rest);
      if !r.Ok? || r.value.None? {
        break;
      }
      assert rest[1..] == ds[|payloads| + 1..];
      assert ds[..|payloads| + 1] == ds[..|payloads|] + [rest[0]];
      payloads := payloads + [r.value.value];
    }
    assert payloads == ds[..|ds|] == ds;
  }

  /**
   * Logging records on a fresh log, reopening it and reading it from the
   * start gives the records back in order and then the end (the scenario of
   * the logger's test). The last record must not be empty: its header would
   * end exactly at the recorded size, where `internNext` already stops.
   */
  method LogReopenRead(ds: seq<seq<byte>>) returns (status: Outcome, payloads: seq<seq<byte>>)
    requires AllLoggable(ds) && (ds == [] || ds[|ds| - 1] != [])
    ensures status == Pass && payloads == ds
  {
    var writer := LogAll(ds);
    var f := writer.file;
    var reader := new LoggerImpl.Open(f);
    status := reader.Init();
    CheckLogFile(ds);
    assert f[..|f|] == f;
    reader.Rewind();
    RecordsLogFile(ds);
    payloads := ReadBack(reader, ds);
  }
}
