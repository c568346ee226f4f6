/**
 * Crash recovery of the data manager (`Recover`).
 *
 * Recovery reads the write-ahead log three times: once to find the highest
 * page a record names (the page file is cut back to it), once to replay the
 * records of every transaction that is no longer active (redo), and once to
 * collect the records of the transactions still active, which it reverts
 * newest first before marking each such transaction aborted (undo).
 *
 * What a record does to a page is a `Patch`; the effect of a whole pass is
 * stated as the patches it applies, in order, to the pages as the engine
 * saw them before the pass (`ApplyAt`).
 */
module Recovery {
  import opened Wrappers
  import opened Bytes
  import opened Pages
  import opened PageCache
  import opened Codec
  import opened LogRecords
  import DataItems
  import Logger
  import Ledger
  import Cache

  /** `REDO` and `UNDO`. */
  datatype Mode = Redo | Undo

  /** What replaying one record writes: `raw` at `offset` of page `pgNo`, as a slot insert or an in-place update. */
  datatype Patch = Patch(pgNo: int, raw: seq<byte>, offset: int, insert: bool)

  // ---------------------------------------------------------------
  // One record

  /** The patch `doInsertLog` applies: the logged slot, made dead first when undoing. */
  function InsertPatch(log: seq<byte>, mode: Mode): (r: Result<Patch>)
    ensures r.Ok? ==> r.value.insert && IsInt32(r.value.pgNo) && IsInt16(r.value.offset)
    ensures r.Ok? ==> ParseInsertLog(log).Ok? && r.value.pgNo == ParseInsertLog(log).value.pgNo
    ensures r.Ok? <==> |log| >= OF_INSERT_RAW && (mode == Undo ==> |log| > OF_INSERT_RAW)
  {
    var li :- ParseInsertLog(log);
    var raw :- if mode == Undo then DataItems.SetDataItemRawInvalid(li.raw) else Ok(li.raw);
    Ok(Patch(li.pgNo, raw, li.offset, true))
  }

  /** The patch `doUpdateLog` applies: the logged new image on redo, the old one on undo. */
  function UpdatePatch(log: seq<byte>, mode: Mode): (r: Result<Patch>)
    ensures r.Ok? ==> !r.value.insert && IsInt32(r.value.pgNo) && IsInt16(r.value.offset)
    ensures r.Ok? <==> ParseUpdateLog(log).Ok?
    ensures r.Ok? ==> var xi := ParseUpdateLog(log).value;
      r.value.pgNo == xi.pgNo && r.value.offset == xi.offset && r.value.raw == if mode == Redo then xi.newRaw else xi.oldRaw
  {
    var xi :- ParseUpdateLog(log);
    Ok(Patch(xi.pgNo, if mode == Redo then xi.newRaw else xi.oldRaw, xi.offset, false))
  }

  /**
   * What recovery writes for a record built by `updateLog(xid, uid, old, new)`:
   * redo writes `new` at the uid's page and offset, but undo writes the
   * low two bytes of the uid followed by `old`, two bytes longer than the
   * slot it restores.
   */
  lemma {:induction false} UndoUpdateAsWritten(xid: int, uid: int, oldRaw: seq<byte>, newRaw: seq<byte>)
    requires IsInt64(xid) && IsInt64(uid) && |oldRaw| == |newRaw|
    ensures var log := UpdateLog(xid, uid, oldRaw, newRaw);
      && UpdatePatch(log, Redo) == Ok(Patch(UidPage(uid), newRaw, UidOffset(uid), false))
      && UpdatePatch(log, Undo) == Ok(Patch(UidPage(uid), Long2Byte(uid)[6..] + oldRaw, UidOffset(uid), false))
  {
    UpdateLogAsWritten(xid, uid, oldRaw, newRaw);
  }

  /** The smallest instance: undoing `updateLog(1, 0, [], [])` writes two zero bytes where nothing was. */
  lemma {:induction false} UndoUpdateAsWrittenWitness()
    ensures UpdatePatch(UpdateLog(1, 0, [], []), Undo).Ok?
    ensures UpdatePatch(UpdateLog(1, 0, [], []), Undo).value.raw == [0, 0]
  {
    UpdateLogAsWrittenWitness();
  }

  /** The patch `doUpdateLog` would apply with the corrected parser. */
  function UpdatePatchIntended(log: seq<byte>, mode: Mode): (r: Result<Patch>)
    ensures r.Ok? <==> ParseUpdateLogIntended(log).Ok?
  {
    var xi :- ParseUpdateLogIntended(log);
    Ok(Patch(xi.pgNo, if mode == Redo then xi.newRaw else xi.oldRaw, xi.offset, false))
  }

  /**
   * With the corrected parser, undo restores exactly the logged old image
   * and redo the new one; the redo patch is the one recovery applies.
   */
  lemma {:induction false} UndoUpdateIntended(xid: int, uid: int, oldRaw: seq<byte>, newRaw: seq<byte>)
    requires IsInt64(xid) && IsInt64(uid) && |oldRaw| == |newRaw|
    ensures var log := UpdateLog(xid, uid, oldRaw, newRaw);
      && UpdatePatchIntended(log, Undo) == Ok(Patch(UidPage(uid), oldRaw, UidOffset(uid), false))
      && UpdatePatchIntended(log, Redo) == UpdatePatch(log, Redo)
  {
    UpdateLogRoundTrip(xid, uid, oldRaw, newRaw);
    UpdateLogAsWritten(xid, uid, oldRaw, newRaw);
  }

  /** The patch a record stands for, by its type byte. */
  function PatchOf(log: seq<byte>, mode: Mode): (r: Result<Patch>)
    ensures r.Ok? ==> IsInt32(r.value.pgNo) && |log| >= 1 && (r.value.insert <==> log[0] == LOG_TYPE_INSERT)
  {
    var ins :- IsInsertLog(log);
    if ins then InsertPatch(log, mode) else UpdatePatch(log, mode)
  }

  /** `recoverInsert` or `recoverUpdate` of a patch on a page buffer. */
  function Apply(px: PageX, pt: Patch, d: seq<byte>): (r: seq<byte>)
    requires Sound(px)
    ensures |r| == |d|
  {
    if pt.insert then px.recoverInsert(d, pt.raw, pt.offset) else px.recoverUpdate(d, pt.raw, pt.offset)
  }

  /** Page `q` after the patches, in order, starting from buffer `d`; patches of other pages pass it by. */
  function ApplyAt(px: PageX, ps: seq<Patch>, q: int, d: seq<byte>): (r: seq<byte>)
    requires Sound(px)
    ensures |r| == |d|
    ensures (forall i :: 0 <= i < |ps| ==> ps[i].pgNo != q) ==> r == d
  {
    if ps == [] then d
    else
      var e := ApplyAt(px, ps[..|ps| - 1], q, d);
      if ps[|ps| - 1].pgNo == q then Apply(px, ps[|ps| - 1], e) else e
  }

  /** Applying two runs of patches is applying the second to the result of the first. */
  lemma {:induction false} ApplyAppend(px: PageX, a: seq<Patch>, b: seq<Patch>, q: int, d: seq<byte>)
    requires Sound(px)
    ensures ApplyAt(px, a + b, q, d) == ApplyAt(px, b, q, ApplyAt(px, a, q, d))
  {
    if b != [] {
      var b' := b[..|b| - 1];
      ApplyAppend(px, a, b', q, d);
      assert (a + b)[..|a + b| - 1] == a + b';
    } else {
      assert a + b == a;
    }
  }

  /** `f` of every element, in order; the first element `f` fails on makes the whole run fail. */
  function MapResult<T>(f: seq<byte> -> Result<T>, xs: seq<seq<byte>>): (r: Result<seq<T>>)
    ensures r.Ok? ==> |r.value| == |xs|
  {
    if xs == [] then Ok([])
    else
      var pre :- MapResult(f, xs[..|xs| - 1]);
      var y :- f(xs[|xs| - 1]);
      Ok(pre + [y])
  }

  /** A mapped run holds, at each place, `f` of the element there. */
  lemma {:induction false} MapResultAll<T>(f: seq<byte> -> Result<T>, xs: seq<seq<byte>>)
    requires MapResult(f, xs).Ok?
    ensures forall i :: 0 <= i < |xs| ==> f(xs[i]) == Ok(MapResult(f, xs).value[i])
  {
    if xs != [] {
      MapResultAll(f, xs[..|xs| - 1]);
    }
  }

  /** Mapping a concatenation succeeds when both parts do, with the concatenated results. */
  lemma {:induction false} MapResultAppend<T>(f: seq<byte> -> Result<T>, a: seq<seq<byte>>, b: seq<seq<byte>>)
    ensures MapResult(f, a + b).Ok? <==> MapResult(f, a).Ok? && MapResult(f, b).Ok?
    ensures MapResult(f, a + b).Ok? ==> MapResult(f, a + b).value == MapResult(f, a).value + MapResult(f, b).value
  {
    if b == [] {
      assert a + b == a;
    } else {
      var b' := b[..|b| - 1];
      MapResultAppend(f, a, b');
      assert (a + b)[..|a + b| - 1] == a + b';
      assert (a + b)[|a + b| - 1] == b[|b| - 1];
    }
  }

  /** One more element at the end of a mapped run. */
  lemma {:induction false} MapResultSnoc<T>(f: seq<byte> -> Result<T>, xs: seq<seq<byte>>, x: seq<byte>)
    requires MapResult(f, xs).Ok? && f(x).Ok?
    ensures MapResult(f, xs + [x]) == Ok(MapResult(f, xs).value + [f(x).value])
  {
    assert (xs + [x])[..|xs|] == xs;
    assert (xs + [x])[|xs|] == x;
  }

  /** The patches of records, in order. */
  function PatchesOf(logs: seq<seq<byte>>, mode: Mode): (r: Result<seq<Patch>>)
    ensures r.Ok? ==> |r.value| == |logs|
  {
    MapResult(log => PatchOf(log, mode), logs)
  }

  // ---------------------------------------------------------------
  // Replaying one record on the page cache

  /**
   * `doInsertLog`: parse, fetch the page, make the slot dead when undoing,
   * write it back into the page and release the page. The named page ends
   * up patched and every other page keeps its bytes; a failure changes no
   * page's bytes.
   */
  method DoInsertLog(pc: PageCacheImpl, px: PageX, log: seq<byte>, mode: Mode) returns (res: Outcome)
    requires pc.Valid() && Sound(px)
    modifies pc`file, pc.rc
    ensures pc.Valid() && pc.pageNumbers == old(pc.pageNumbers) && pc.rc.references == old(pc.rc.references)
    ensures InsertPatch(log, mode).Err? ==> res.Fail?
    ensures res.Pass? ==> InsertPatch(log, mode).Ok? && Placeable(InsertPatch(log, mode).value.pgNo)
    ensures res.Pass? ==> var pt := InsertPatch(log, mode).value;
      forall q :: Placeable(q) ==> pc.Content(q) == if q == pt.pgNo then Apply(px, pt, old(pc.Content(q))) else old(pc.Content(q))
    ensures res.Fail? ==> forall q :: Placeable(q) ==> pc.Content(q) == old(pc.Content(q))
  {
    var pr := ParseInsertLog(log);
    if pr.Err? {
      return Fail(pr.error);
    }
    var li := pr.value;
    ghost var refs0 := pc.rc.references;
    var gp := pc.GetPage(li.pgNo);
    if gp.Err? {
      return Fail(gp.error);
    }
    Cache.DropBump(refs0, li.pgNo);
    var page := gp.value;
    assert page == pc.rc.cache[li.pgNo];
    var raw := li.raw;
    if mode == Undo {
      var inv := DataItems.SetDataItemRawInvalid(raw);
      if inv.Err? {
        res := ReleaseUnchanged(pc, li.pgNo);
        return Fail(inv.error);
      }
      raw := inv.value;
    }
    res := WriteBack(pc, px, Patch(li.pgNo, raw, li.offset, true), page);
  }

  /**
   * `doUpdateLog`: parse, fetch the page, write the chosen image at the
   * record's offset and release the page.
   */
  method DoUpdateLog(pc: PageCacheImpl, px: PageX, log: seq<byte>, mode: Mode) returns (res: Outcome)
    requires pc.Valid() && Sound(px)
    modifies pc`file, pc.rc
    ensures pc.Valid() && pc.pageNumbers == old(pc.pageNumbers) && pc.rc.references == old(pc.rc.references)
    ensures UpdatePatch(log, mode).Err? ==> res.Fail?
    ensures res.Pass? ==> UpdatePatch(log, mode).Ok? && Placeable(UpdatePatch(log, mode).value.pgNo)
    ensures res.Pass? ==> var pt := UpdatePatch(log, mode).value;
      forall q :: Placeable(q) ==> pc.Content(q) == if q == pt.pgNo then Apply(px, pt, old(pc.Content(q))) else old(pc.Content(q))
    ensures res.Fail? ==> forall q :: Placeable(q) ==> pc.Content(q) == old(pc.Content(q))
  {
    var pr := ParseUpdateLog(log);
    if pr.Err? {
      return Fail(pr.error);
    }
    var xi := pr.value;
    var raw := if mode == Redo then xi.newRaw else xi.oldRaw;
    ghost var refs0 := pc.rc.references;
    var gp := pc.GetPage(xi.pgNo);
    if gp.Err? {
      return Fail(gp.error);
    }
    Cache.DropBump(refs0, xi.pgNo);
    var page := gp.value;
    assert page == pc.rc.cache[xi.pgNo];
    res := WriteBack(pc, px, Patch(xi.pgNo, raw, xi.offset, false), page);
  }

  /**
   * The tail both kinds share: `recoverInsert` or `recoverUpdate` on the
   * fetched page, which marks it dirty, then the `finally` release.
   */
  method WriteBack(pc: PageCacheImpl, px: PageX, pt: Patch, page: Page) returns (res: Outcome)
    requires pc.Valid() && Sound(px) && pt.pgNo in pc.rc.cache && page == pc.rc.cache[pt.pgNo]
    modifies pc`file, pc.rc
    ensures pc.Valid() && pc.pageNumbers == old(pc.pageNumbers) && res == Pass && Placeable(pt.pgNo)
    ensures pc.rc.references == Cache.Drop(old(pc.rc.references), pt.pgNo)
    ensures forall q :: Placeable(q) ==>
      pc.Content(q) == if q == pt.pgNo then Apply(px, pt, old(pc.Content(q))) else old(pc.Content(q))
  {
    if pt.insert {
      pc.UpdatePage(RecoverInsert(px, page, pt.raw, pt.offset));
    } else {
      pc.UpdatePage(RecoverUpdate(px, page, pt.raw, pt.offset));
    }
    var _ := pc.Release(pt.pgNo);
    res := Pass;
  }

  /**
   * The `finally` release of a page fetched and left untouched: either the
   * page was cached before and keeps a reference, or it was just loaded,
   * clean, and dropping it writes nothing. No page's bytes change.
   */
  method ReleaseUnchanged(pc: PageCacheImpl, pgNo: int) returns (res: Outcome)
    requires pc.Valid() && pgNo in pc.rc.cache && Placeable(pgNo)
    requires pc.rc.references[pgNo] > 1
      || (!pc.rc.cache[pgNo].dirty && pc.rc.cache[pgNo].data == ReadAt(pc.file, PageOffset(pgNo), PAGE_SIZE))
    modifies pc`file, pc.rc`cache, pc.rc`references, pc.rc`count
    ensures pc.Valid() && pc.pageNumbers == old(pc.pageNumbers) && res == Pass
    ensures pc.rc.references == Cache.Drop(old(pc.rc.references), pgNo)
    ensures forall q :: Placeable(q) ==> pc.Content(q) == old(pc.Content(q))
  {
    res := pc.Release(pgNo);
  }

  // ---------------------------------------------------------------
  // Redo

  /** The records of a log file of the given size, read from just past its header as `next` delivers them. */
  function LogOf(f: seq<byte>, size: int): Result<seq<seq<byte>>>
  {
    Logger.Records(f, Logger.OF_SIZE + 4, size)
  }

  /** The xid redo reads from a record, with the parser of the record's kind. */
  function RecordXid(log: seq<byte>): (r: Result<int>)
    ensures r.Ok? ==> PatchOf(log, Redo).Ok?
  {
    var ins :- IsInsertLog(log);
    if ins then
      var li :- ParseInsertLog(log);
      Ok(li.xid)
    else
      var xi :- ParseUpdateLog(log);
      Ok(xi.xid)
  }

  /** What redo makes of one record: the record's patch unless its transaction is still active. */
  function RedoStep(tmf: seq<byte>, log: seq<byte>): (r: Result<Option<Patch>>)
    ensures r.Ok? && r.value.Some? ==> PatchOf(log, Redo) == Ok(r.value.value)
  {
    var xid :- RecordXid(log);
    var active :- Ledger.Active(tmf, xid);
    if active then Ok(None) else Ok(Some(PatchOf(log, Redo).value))
  }

  /** The patches redo applies for a run of records, in order. */
  function RedoPlan(tmf: seq<byte>, logs: seq<seq<byte>>): (r: Result<seq<Patch>>)
    ensures r.Ok? ==> |r.value| <= |logs|
  {
    if logs == [] then Ok([])
    else
      var pre :- RedoPlan(tmf, logs[..|logs| - 1]);
      var step :- RedoStep(tmf, logs[|logs| - 1]);
      Ok(pre + Listed(step))
  }

  /** One more record extends the plan by that record's step. */
  lemma {:induction false} RedoPlanStep(tmf: seq<byte>, seen: seq<seq<byte>>, log: seq<byte>)
    requires RedoPlan(tmf, seen).Ok? && RedoStep(tmf, log).Ok?
    ensures RedoPlan(tmf, seen + [log]) == Ok(RedoPlan(tmf, seen).value + Listed(RedoStep(tmf, log).value))
  {
    assert (seen + [log])[..|seen|] == seen;
    assert (seen + [log])[|seen|] == log;
  }

  /** One record read by `next`: the records from the old position are it and those from the new one. */
  lemma {:induction false} RecordsStep(f: seq<byte>, pos: nat, size: int, log: seq<byte>, seen: seq<seq<byte>>, at: nat)
    requires Logger.NextAt(f, pos, size).Ok? && Logger.NextAt(f, pos, size).value.Some?
    requires log == Logger.NextAt(f, pos, size).value.value[Logger.OF_DATA..]
    requires at == pos + Logger.OF_DATA + |log|
    ensures Logger.Prepend(seen, Logger.Records(f, pos, size)) == Logger.Prepend(seen + [log], Logger.Records(f, at, size))
  {
    Logger.RecordsUnfold(f, pos, size, log, at);
    var rest := Logger.Records(f, at, size);
    if rest.Ok? {
      assert seen + ([log] + rest.value) == (seen + [log]) + rest.value;
    }
  }

  /** An optional patch as a run of zero or one patches. */
  function Listed(step: Option<Patch>): (r: seq<Patch>)
    ensures |r| <= 1
  {
    if step.Some? then [step.value] else []
  }

  /**
   * The body of the redo loop for one record: read its xid with the parser
   * of its kind and replay it unless its transaction is still active.
   */
  method RedoRecord(tmf: seq<byte>, pc: PageCacheImpl, px: PageX, log: seq<byte>) returns (res: Outcome)
    requires pc.Valid() && Sound(px)
    modifies pc`file, pc.rc
    ensures pc.Valid() && pc.pageNumbers == old(pc.pageNumbers) && pc.rc.references == old(pc.rc.references)
    ensures RedoStep(tmf, log).Err? ==> res.Fail?
    ensures res.Pass? ==> RedoStep(tmf, log).Ok? && forall q :: Placeable(q) ==>
      pc.Content(q) == ApplyAt(px, Listed(RedoStep(tmf, log).value), q, old(pc.Content(q)))
  {
    var ins := IsInsertLog(log);
    if ins.Err? {
      return Fail(ins.error);
    }
    var xid: int;
    if ins.value {
      var li := ParseInsertLog(log);
      if li.Err? {
        return Fail(li.error);
      }
      xid := li.value.xid;
    } else {
      var xi := ParseUpdateLog(log);
      if xi.Err? {
        return Fail(xi.error);
      }
      xid := xi.value.xid;
    }
    assert RecordXid(log) == Ok(xid);
    var active := Ledger.Active(tmf, xid);
    if active.Err? {
      return Fail(active.error);
    }
    if active.value {
      return Pass;
    }
    if ins.value {
      res := DoInsertLog(pc, px, log, Redo);
    } else {
      res := DoUpdateLog(pc, px, log, Redo);
    }
  }

  /**
   * `redoTransactions`: every record of a transaction that is no longer
   * active is replayed, in log order. On success the pages as the engine
   * sees them are the pages from before, with the redo plan of the whole
   * log applied.
   */
  method RedoTransactions(tm: Ledger.LedgerImpl, lg: Logger.LoggerImpl, pc: PageCacheImpl, px: PageX) returns (res: Outcome)
    requires pc.Valid() && Sound(px) && lg.Valid()
    modifies lg`position, pc`file, pc.rc
    ensures pc.Valid() && lg.Valid() && pc.pageNumbers == old(pc.pageNumbers) && pc.rc.references == old(pc.rc.references)
    ensures res.Pass? ==>
      && LogOf(lg.file, lg.fileSize).Ok?
      && RedoPlan(tm.file, LogOf(lg.file, lg.fileSize).value).Ok?
      && forall q :: Placeable(q) ==> pc.Content(q) == ApplyAt(px, RedoPlan(tm.file, LogOf(lg.file, lg.fileSize).value).value, q, old(pc.Content(q)))
  {
    lg.Rewind();
    ghost var seen: seq<seq<byte>> := [];
    ghost var plan: seq<Patch> := [];
    if LogOf(lg.file, lg.fileSize).Ok? {
      assert [] + LogOf(lg.file, lg.fileSize).value == LogOf(lg.file, lg.fileSize).value;
    }
    while true
      invariant pc.Valid() && lg.Valid() && pc.pageNumbers == old(pc.pageNumbers) && pc.rc.references == old(pc.rc.references)
      invariant LogOf(lg.file, lg.fileSize) == Logger.Prepend(seen, Logger.Records(lg.file, lg.position, lg.fileSize))
      invariant RedoPlan(tm.file, seen) == Ok(plan)
      invariant forall q :: Placeable(q) ==> pc.Content(q) == ApplyAt(px, plan, q, old(pc.Content(q)))
      decreases lg.fileSize - lg.position
    {
      ghost var pos := lg.position;
      var next := lg.Next();
      if next.Err? {
        return Fail(next.error);
      }
      if next.value.None? {
        assert Logger.Records(lg.file, lg.position, lg.fileSize) == Ok([]);
        assert seen + [] == seen;
        break;
      }
      var log := next.value.value;
      ghost var f, size, at := lg.file, lg.fileSize, lg.position;
      RecordsStep(f, pos, size, log, seen, at);
      ghost var before := plan;
      var r := RedoRecord(tm.file, pc, px, log);
      if r.Fail? {
        return r;
      }
      var step := RedoStep(tm.file, log).value;
      plan := plan + Listed(step);
      forall q | Placeable(q)
        ensures pc.Content(q) == ApplyAt(px, plan, q, old(pc.Content(q)))
      {
        ApplyAppend(px, before, Listed(step), q, old(pc.Content(q)));
      }
      RedoPlanStep(tm.file, seen, log);
      seen := seen + [log];
      assert lg.file == f && lg.fileSize == size && lg.position == at;
    }
    res := Pass;
  }

  // ---------------------------------------------------------------
  // Undo

  /**
   * The transaction undo files a record under: the xid read with the
   * insert-record parser whatever the record's kind, if that transaction is
   * still active.
   */
  function UndoOwner(tmf: seq<byte>, log: seq<byte>): Result<Option<int>>
  {
    var ins :- IsInsertLog(log);
    var li :- ParseInsertLog(log);
    var active :- Ledger.Active(tmf, li.xid);
    Ok(if active then Some(li.xid) else None)
  }

  /**
   * `logCache`, with the order in which its keys first appeared: the
   * records of each still-active transaction, in log order.
   */
  datatype Groups = Groups(order: seq<int>, logs: map<int, seq<seq<byte>>>)

  /** Every key is listed once, every listed key has a non-empty group. */
  ghost predicate WellGrouped(g: Groups)
  {
    && (forall i :: 0 <= i < |g.order| ==> g.order[i] in g.logs && |g.logs[g.order[i]]| >= 1)
    && (forall x :: x in g.logs ==> x in g.order)
    && (forall i, j :: 0 <= i < j < |g.order| ==> g.order[i] != g.order[j])
  }

  /** `log` appended to the group of `x`, which is started if new. */
  function File(g: Groups, x: int, log: seq<byte>): (r: Groups)
    requires WellGrouped(g)
    ensures WellGrouped(r)
    ensures x in r.logs && r.logs[x] == (if x in g.logs then g.logs[x] else []) + [log]
    ensures forall y :: y != x ==> (y in r.logs <==> y in g.logs) && (y in g.logs ==> r.logs[y] == g.logs[y])
  {
    if x in g.logs then Groups(g.order, g.logs[x := g.logs[x] + [log]])
    else Groups(g.order + [x], g.logs[x := [log]])
  }

  /** The groups the first undo loop builds from a run of records. */
  function Collect(tmf: seq<byte>, logs: seq<seq<byte>>): (r: Result<Groups>)
    ensures r.Ok? ==> WellGrouped(r.value)
  {
    if logs == [] then Ok(Groups([], map[]))
    else
      var g :- Collect(tmf, logs[..|logs| - 1]);
      var owner :- UndoOwner(tmf, logs[|logs| - 1]);
      Ok(if owner.Some? then File(g, owner.value, logs[|logs| - 1]) else g)
  }

  /** The records of a run that undo files under `x`, in order. */
  function Owned(tmf: seq<byte>, logs: seq<seq<byte>>, x: int): seq<seq<byte>>
  {
    if logs == [] then []
    else
      var last := logs[|logs| - 1];
      Owned(tmf, logs[..|logs| - 1], x) + (if UndoOwner(tmf, last) == Ok(Some(x)) then [last] else [])
  }

  /**
   * The groups are exactly the records of each still-active transaction:
   * a transaction has a group iff some record is filed under it, and its
   * group is those records in log order.
   */
  lemma {:induction false} CollectOwned(tmf: seq<byte>, logs: seq<seq<byte>>, x: int)
    requires Collect(tmf, logs).Ok?
    ensures var g := Collect(tmf, logs).value;
      && (x in g.logs <==> |Owned(tmf, logs, x)| >= 1)
      && (x in g.logs ==> g.logs[x] == Owned(tmf, logs, x))
  {
    if logs != [] {
      CollectOwned(tmf, logs[..|logs| - 1], x);
    }
  }

  /** `xs` newest first. */
  function Reversed(xs: seq<seq<byte>>): (r: seq<seq<byte>>)
    ensures |r| == |xs| && forall i :: 0 <= i < |xs| ==> r[i] == xs[|xs| - 1 - i]
  {
    seq(|xs|, i requires 0 <= i < |xs| => xs[|xs| - 1 - i])
  }

  /** The records the second undo loop replays: group after group in `order`, each newest first. */
  function UndoOrder(order: seq<int>, logs: map<int, seq<seq<byte>>>): seq<seq<byte>>
    requires forall i :: 0 <= i < |order| ==> order[i] in logs
  {
    if order == [] then []
    else UndoOrder(order[..|order| - 1], logs) + Reversed(logs[order[|order| - 1]])
  }

  /**
   * The xids of `hash` that have a group, each at its first appearance.
   * `HashMap` iteration order is not computed here: `hash` stands for it.
   */
  function Visited(hash: seq<int>, logs: map<int, seq<seq<byte>>>): (r: seq<int>)
    ensures forall i :: 0 <= i < |r| ==> r[i] in logs && r[i] in hash
    ensures forall i, j :: 0 <= i < j < |r| ==> r[i] != r[j]
    ensures forall x :: x in logs && x in hash ==> x in r
  {
    if hash == [] then []
    else
      var v := Visited(hash[..|hash| - 1], logs);
      var x := hash[|hash| - 1];
      assert forall y :: y in hash ==> y in hash[..|hash| - 1] || y == x;
      if x in logs && x !in v then v + [x] else v
  }

  /** The elements of `order` that `hash` does not name, in their order. */
  function Unnamed(order: seq<int>, hash: seq<int>): (r: seq<int>)
    ensures forall i :: 0 <= i < |r| ==> r[i] in order && r[i] !in hash
    ensures forall x :: x in order && x !in hash ==> x in r
    ensures (forall i, j :: 0 <= i < j < |order| ==> order[i] != order[j]) ==>
      forall i, j :: 0 <= i < j < |r| ==> r[i] != r[j]
  {
    if order == [] then []
    else
      var u := Unnamed(order[..|order| - 1], hash);
      var x := order[|order| - 1];
      assert forall y :: y in order ==> y in order[..|order| - 1] || y == x;
      if x !in hash then u + [x] else u
  }

  /**
   * The order in which the second undo loop visits `logCache`: the groups
   * in the order `hash` names them, then any group it leaves out, in the
   * order the groups were started. Every group is visited exactly once,
   * and every ordering of the groups is one of these (`VisitedAsHashed`).
   */
  function IterOrder(hash: seq<int>, g: Groups): (r: seq<int>)
    requires WellGrouped(g)
    ensures forall x :: x in r <==> x in g.logs
    ensures forall i, j :: 0 <= i < j < |r| ==> r[i] != r[j]
  {
    var v, u := Visited(hash, g.logs), Unnamed(g.order, hash);
    assert forall i, j :: 0 <= i < |v| && 0 <= j < |u| ==> v[i] != u[j];
    v + u
  }

  /** Any ordering of exactly the groups' xids is visited as it is. */
  lemma {:induction false} VisitedAsHashed(hash: seq<int>, g: Groups)
    requires WellGrouped(g)
    requires forall x :: x in hash <==> x in g.logs
    requires forall i, j :: 0 <= i < j < |hash| ==> hash[i] != hash[j]
    ensures IterOrder(hash, g) == hash
  {
    assert forall i :: 0 <= i < |hash| ==> hash[i] in hash;
    VisitedAll(hash, g.logs);
    assert forall i :: 0 <= i < |g.order| ==> g.order[i] in hash;
    UnnamedNone(g.order, hash);
    assert IterOrder(hash, g) == hash + [];
  }

  lemma {:induction false} UnnamedNone(order: seq<int>, hash: seq<int>)
    requires forall i :: 0 <= i < |order| ==> order[i] in hash
    ensures Unnamed(order, hash) == []
  {
    if order != [] {
      UnnamedNone(order[..|order| - 1], hash);
    }
  }

  lemma {:induction false} VisitedAll(hash: seq<int>, logs: map<int, seq<seq<byte>>>)
    requires forall i :: 0 <= i < |hash| ==> hash[i] in logs
    requires forall i, j :: 0 <= i < j < |hash| ==> hash[i] != hash[j]
    ensures Visited(hash, logs) == hash
  {
    if hash != [] {
      var front, x := hash[..|hash| - 1], hash[|hash| - 1];
      assert forall i :: 0 <= i < |front| ==> front[i] == hash[i];
      VisitedAll(front, logs);
      assert x !in front;
      assert Visited(hash, logs) == front + [x];
      assert hash == front + [x];
    }
  }

  /** The ledger after `abort` of each xid in turn. */
  function AbortAll(f: seq<byte>, xs: seq<int>): seq<byte>
  {
    if xs == [] then f
    else
      var g := AbortAll(f, xs[..|xs| - 1]);
      var x := xs[|xs| - 1];
      if Ledger.XidPosition(x) >= 0 then WriteAt(g, Ledger.XidPosition(x), [Ledger.ABORTED]) else g
  }

  /** The body of the inner undo loop: one record replayed backwards, by its type byte. */
  method UndoRecord(pc: PageCacheImpl, px: PageX, log: seq<byte>) returns (res: Outcome)
    requires pc.Valid() && Sound(px)
    modifies pc`file, pc.rc
    ensures pc.Valid() && pc.pageNumbers == old(pc.pageNumbers) && pc.rc.references == old(pc.rc.references)
    ensures PatchOf(log, Undo).Err? ==> res.Fail?
    ensures res.Pass? ==> PatchOf(log, Undo).Ok? && forall q :: Placeable(q) ==>
      pc.Content(q) == ApplyAt(px, [PatchOf(log, Undo).value], q, old(pc.Content(q)))
  {
    var ins := IsInsertLog(log);
    if ins.Err? {
      return Fail(ins.error);
    }
    if ins.value {
      res := DoInsertLog(pc, px, log, Undo);
    } else {
      res := DoUpdateLog(pc, px, log, Undo);
    }
    if res.Pass? {
      var pt := PatchOf(log, Undo).value;
      assert [pt][..0] == [];
    }
  }

  /** Mapping one more record, the next older one, extends the map of the newest `k` records. */
  lemma {:induction false} MapResultReversedStep<T>(f: seq<byte> -> Result<T>, logs: seq<seq<byte>>, k: nat, done: seq<T>)
    requires k < |logs| && MapResult(f, Reversed(logs)[..k]) == Ok(done)
    requires f(logs[|logs| - 1 - k]).Ok?
    ensures MapResult(f, Reversed(logs)[..k + 1]) == Ok(done + [f(logs[|logs| - 1 - k]).value])
  {
    var rev, log := Reversed(logs), logs[|logs| - 1 - k];
    assert rev[k] == log;
    assert rev[..k + 1] == rev[..k] + [log];
    MapResultSnoc(f, rev[..k], log);
  }

  /** The inner undo loop: the records of one transaction, newest first. */
  method UndoGroup(pc: PageCacheImpl, px: PageX, logs: seq<seq<byte>>) returns (res: Outcome)
    requires pc.Valid() && Sound(px)
    modifies pc`file, pc.rc
    ensures pc.Valid() && pc.pageNumbers == old(pc.pageNumbers) && pc.rc.references == old(pc.rc.references)
    ensures res.Pass? ==> PatchesOf(Reversed(logs), Undo).Ok? && forall q :: Placeable(q) ==>
      pc.Content(q) == ApplyAt(px, PatchesOf(Reversed(logs), Undo).value, q, old(pc.Content(q)))
  {
    ghost var done: seq<Patch> := [];
    ghost var rev := Reversed(logs);
    var i := |logs| - 1;
    while i >= 0
      invariant -1 <= i < |logs|
      invariant pc.Valid() && pc.pageNumbers == old(pc.pageNumbers) && pc.rc.references == old(pc.rc.references)
      invariant PatchesOf(rev[..|logs| - 1 - i], Undo) == Ok(done)
      invariant forall q :: Placeable(q) ==> pc.Content(q) == ApplyAt(px, done, q, old(pc.Content(q)))
    {
      var log := logs[i];
      ghost var before := done;
      var r := UndoRecord(pc, px, log);
      if r.Fail? {
        return r;
      }
      MapResultReversedStep(log => PatchOf(log, Undo), logs, |logs| - 1 - i, done);
      done := done + [PatchOf(log, Undo).value];
      forall q | Placeable(q)
        ensures pc.Content(q) == ApplyAt(px, done, q, old(pc.Content(q)))
      {
        ApplyAppend(px, before, [PatchOf(log, Undo).value], q, old(pc.Content(q)));
      }
      i := i - 1;
    }
    assert rev[..|logs| - 1 - i] == rev;
    assert PatchesOf(rev, Undo) == Ok(done);
    res := Pass;
  }

  /** One more record extends the groups by that record's owner. */
  lemma {:induction false} CollectStep(tmf: seq<byte>, seen: seq<seq<byte>>, log: seq<byte>)
    requires Collect(tmf, seen).Ok? && UndoOwner(tmf, log).Ok?
    ensures var g, owner := Collect(tmf, seen).value, UndoOwner(tmf, log).value;
      Collect(tmf, seen + [log]) == Ok(if owner.Some? then File(g, owner.value, log) else g)
  {
    assert (seen + [log])[..|seen|] == seen;
    assert (seen + [log])[|seen|] == log;
  }

  /** The first undo loop's reading of one record: its type byte, its xid as an insert record, and that transaction's state. */
  method OwnerOf(tmf: seq<byte>, log: seq<byte>) returns (r: Result<Option<int>>)
    ensures r == UndoOwner(tmf, log)
    ensures r.Ok? && r.value.Some? ==> Ledger.Active(tmf, r.value.value) == Ok(true)
  {
    var ins := IsInsertLog(log);
    if ins.Err? {
      return Err(ins.error);
    }
    var li := ParseInsertLog(log);
    if li.Err? {
      return Err(li.error);
    }
    var xid := li.value.xid;
    var active := Ledger.Active(tmf, xid);
    if active.Err? {
      return Err(active.error);
    }
    r := Ok(if active.value then Some(xid) else None);
  }

  /**
   * The first undo loop: `logCache` and the order of its keys, built from
   * every record whose transaction is still active.
   */
  method CollectActive(tm: Ledger.LedgerImpl, lg: Logger.LoggerImpl) returns (r: Result<Groups>)
    requires lg.Valid()
    modifies lg`position
    ensures lg.Valid()
    ensures r.Ok? ==> LogOf(lg.file, lg.fileSize).Ok? && Collect(tm.file, LogOf(lg.file, lg.fileSize).value) == r
  {
    var order: seq<int> := [];
    var logCache: map<int, seq<seq<byte>>> := map[];
    lg.Rewind();
    ghost var seen: seq<seq<byte>> := [];
    if LogOf(lg.file, lg.fileSize).Ok? {
      assert [] + LogOf(lg.file, lg.fileSize).value == LogOf(lg.file, lg.fileSize).value;
    }
    while true
      invariant lg.Valid()
      invariant LogOf(lg.file, lg.fileSize) == Logger.Prepend(seen, Logger.Records(lg.file, lg.position, lg.fileSize))
      invariant Collect(tm.file, seen) == Ok(Groups(order, logCache))
      decreases lg.fileSize - lg.position
    {
      ghost var pos := lg.position;
      var next := lg.Next();
      if next.Err? {
        return Err(next.error);
      }
      if next.value.None? {
        assert Logger.Records(lg.file, lg.position, lg.fileSize) == Ok([]);
        assert seen + [] == seen;
        break;
      }
      var log := next.value.value;
      ghost var f, size, at := lg.file, lg.fileSize, lg.position;
      RecordsStep(f, pos, size, log, seen, at);
      var owner := OwnerOf(tm.file, log);
      if owner.Err? {
        return Err(owner.error);
      }
      CollectStep(tm.file, seen, log);
      ghost var g := Groups(order, logCache);
      if owner.value.Some? {
        var xid := owner.value.value;
        if xid !in logCache {
          order := order + [xid];
          logCache := logCache[xid := [log]];
        } else {
          logCache := logCache[xid := logCache[xid] + [log]];
        }
      }
      seen := seen + [log];
    }
    r := Ok(Groups(order, logCache));
  }

  /** One more group at the end of the order. */
  lemma {:induction false} UndoOrderStep(order: seq<int>, logs: map<int, seq<seq<byte>>>, i: nat)
    requires i < |order| && forall j :: 0 <= j < |order| ==> order[j] in logs
    ensures UndoOrder(order[..i + 1], logs) == UndoOrder(order[..i], logs) + Reversed(logs[order[i]])
  {
    assert order[..i + 1][..i] == order[..i];
  }

  /** Mapping one more group, newest first, extends the map of the groups before it. */
  lemma {:induction false} MapResultGroupStep<T>(f: seq<byte> -> Result<T>, order: seq<int>, logs: map<int, seq<seq<byte>>>, i: nat, done: seq<T>)
    requires i < |order| && forall j :: 0 <= j < |order| ==> order[j] in logs
    requires MapResult(f, UndoOrder(order[..i], logs)) == Ok(done)
    requires MapResult(f, Reversed(logs[order[i]])).Ok?
    ensures MapResult(f, UndoOrder(order[..i + 1], logs)) == Ok(done + MapResult(f, Reversed(logs[order[i]])).value)
  {
    UndoOrderStep(order, logs, i);
    MapResultAppend(f, UndoOrder(order[..i], logs), Reversed(logs[order[i]]));
  }

  /** One more abort at the end of the order. */
  lemma {:induction false} AbortAllStep(f: seq<byte>, order: seq<int>, i: nat)
    requires i < |order|
    ensures AbortAll(f, order[..i + 1]) == var g := AbortAll(f, order[..i]);
      if Ledger.XidPosition(order[i]) >= 0 then WriteAt(g, Ledger.XidPosition(order[i]), [Ledger.ABORTED]) else g
  {
    assert order[..i + 1][..i] == order[..i];
  }

  /**
   * The second undo loop: each group replayed newest first, then its
   * transaction aborted.
   */
  method UndoGroups(tm: Ledger.LedgerImpl, pc: PageCacheImpl, px: PageX, order: seq<int>, logCache: map<int, seq<seq<byte>>>) returns (res: Outcome)
    requires pc.Valid() && Sound(px)
    requires forall i :: 0 <= i < |order| ==> order[i] in logCache
    modifies pc`file, pc.rc, tm`file
    ensures pc.Valid() && pc.pageNumbers == old(pc.pageNumbers) && pc.rc.references == old(pc.rc.references)
    ensures res.Pass? ==>
      && PatchesOf(UndoOrder(order, logCache), Undo).Ok?
      && (forall q :: Placeable(q) ==> pc.Content(q) == ApplyAt(px, PatchesOf(UndoOrder(order, logCache), Undo).value, q, old(pc.Content(q))))
      && tm.file == AbortAll(old(tm.file), order)
  {
    ghost var done: seq<Patch> := [];
    var i := 0;
    while i < |order|
      invariant 0 <= i <= |order|
      invariant pc.Valid() && pc.pageNumbers == old(pc.pageNumbers) && pc.rc.references == old(pc.rc.references)
      invariant PatchesOf(UndoOrder(order[..i], logCache), Undo) == Ok(done)
      invariant forall q :: Placeable(q) ==> pc.Content(q) == ApplyAt(px, done, q, old(pc.Content(q)))
      invariant tm.file == AbortAll(old(tm.file), order[..i])
    {
      var logs := logCache[order[i]];
      ghost var before := done;
      var r := UndoGroup(pc, px, logs);
      if r.Fail? {
        return r;
      }
      var a := tm.Abort(order[i]);
      if a.Fail? {
        return a;
      }
      ghost var group := PatchesOf(Reversed(logs), Undo).value;
      MapResultGroupStep(log => PatchOf(log, Undo), order, logCache, i, done);
      done := done + group;
      forall q | Placeable(q)
        ensures pc.Content(q) == ApplyAt(px, done, q, old(pc.Content(q)))
      {
        ApplyAppend(px, before, group, q, old(pc.Content(q)));
      }
      AbortAllStep(old(tm.file), order, i);
      i := i + 1;
    }
    assert order[..i] == order;
    res := Pass;
  }

  /**
   * `undoTransactions`: the records of every transaction still active are
   * reverted, newest first, one transaction after another, and each such
   * transaction is marked aborted.
   */
  method UndoTransactions(tm: Ledger.LedgerImpl, lg: Logger.LoggerImpl, pc: PageCacheImpl, px: PageX, hash: seq<int>) returns (res: Outcome)
    requires pc.Valid() && Sound(px) && lg.Valid()
    modifies lg`position, pc`file, pc.rc, tm`file
    ensures pc.Valid() && lg.Valid() && pc.pageNumbers == old(pc.pageNumbers) && pc.rc.references == old(pc.rc.references)
    ensures res.Pass? ==>
      && LogOf(lg.file, lg.fileSize).Ok?
      && Collect(old(tm.file), LogOf(lg.file, lg.fileSize).value).Ok?
      && var g := Collect(old(tm.file), LogOf(lg.file, lg.fileSize).value).value;
      && var order := IterOrder(hash, g);
      && PatchesOf(UndoOrder(order, g.logs), Undo).Ok?
      && (forall q :: Placeable(q) ==> pc.Content(q) == ApplyAt(px, PatchesOf(UndoOrder(order, g.logs), Undo).value, q, old(pc.Content(q))))
      && tm.file == AbortAll(old(tm.file), order)
  {
    var c := CollectActive(tm, lg);
    if c.Err? {
      return Fail(c.error);
    }
    var order := IterOrder(hash, c.value);
    res := UndoGroups(tm, pc, px, order, c.value.logs);
  }

  // ---------------------------------------------------------------
  // Properties of the passes

  /** Redo replays nothing for a log whose transactions are all still active. */
  lemma {:induction false} RedoSkipsActive(tmf: seq<byte>, logs: seq<seq<byte>>)
    requires forall i :: 0 <= i < |logs| ==> RecordXid(logs[i]).Ok? && Ledger.Active(tmf, RecordXid(logs[i]).value) == Ok(true)
    ensures RedoPlan(tmf, logs) == Ok([])
  {
    if logs != [] {
      RedoSkipsActive(tmf, logs[..|logs| - 1]);
    }
  }

  /** Undo files nothing for a log whose transactions have all finished. */
  lemma {:induction false} UndoSkipsFinished(tmf: seq<byte>, logs: seq<seq<byte>>)
    requires forall i :: 0 <= i < |logs| ==> UndoOwner(tmf, logs[i]) == Ok(None)
    ensures Collect(tmf, logs) == Ok(Groups([], map[]))
  {
    if logs != [] {
      UndoSkipsFinished(tmf, logs[..|logs| - 1]);
    }
  }

  /**
   * Reading an update record with the insert-record parser, as the undo
   * pass does, finds the same xid as the update parser: both read bytes 1 to 9.
   */
  lemma {:induction false} UndoReadsUpdateXid(log: seq<byte>)
    requires |log| >= OF_UPDATE_RAW
    ensures ParseInsertLog(log).Ok? && ParseUpdateLog(log).Ok?
    ensures ParseInsertLog(log).value.xid == ParseUpdateLog(log).value.xid
    ensures RecordXid(log) == Ok(ParseInsertLog(log).value.xid)
  {
    ParseInsertLogFields(log);
    ParseUpdateLogFields(log);
  }

  /** After the aborts every listed transaction is aborted and every other keeps its status. */
  lemma {:induction false} AbortAllStatus(f: seq<byte>, xs: seq<int>, y: int)
    requires IsInt64(y) && Ledger.XidPosition(y) >= 0
    requires forall k :: 0 <= k < |xs| ==> IsInt64(xs[k])
    ensures Ledger.StatusAt(AbortAll(f, xs), y) == if y in xs then Ok(Ledger.ABORTED) else Ledger.StatusAt(f, y)
  {
    if xs != [] {
      var pre, x := xs[..|xs| - 1], xs[|xs| - 1];
      AbortAllStatus(f, pre, y);
      assert xs == pre + [x];
      if Ledger.XidPosition(x) >= 0 {
        Ledger.StatusAfterWrite(AbortAll(f, pre), x, Ledger.ABORTED, y);
      } else {
        assert y != x;
      }
    }
  }

  // ---------------------------------------------------------------
  // Truncation and the whole recovery

  /** The page number the first pass reads from a record, with the parser of its kind. */
  function RecordPage(log: seq<byte>): (r: Result<int>)
    ensures r.Ok? ==> IsInt32(r.value)
  {
    var ins :- IsInsertLog(log);
    if ins then
      var li :- ParseInsertLog(log);
      Ok(li.pgNo)
    else
      var xi :- ParseUpdateLog(log);
      Ok(xi.pgNo)
  }

  /** The largest of 0 and the numbers. */
  function MaxFrom0(xs: seq<int>): (r: int)
    ensures r >= 0 && forall i :: 0 <= i < |xs| ==> xs[i] <= r
    ensures r == 0 || r in xs
  {
    if xs == [] then 0
    else
      var m := MaxFrom0(xs[..|xs| - 1]);
      assert m == 0 || m in xs;
      if xs[|xs| - 1] > m then xs[|xs| - 1] else m
  }

  /** The highest page number the records name, or 0. */
  function MaxPgNo(logs: seq<seq<byte>>): (r: Result<int>)
    ensures r.Ok? ==> r.value >= 0 && IsInt32(r.value)
  {
    var pages :- MapResult(RecordPage, logs);
    MapResultAll(RecordPage, logs);
    assert forall i :: 0 <= i < |pages| ==> IsInt32(pages[i]);
    Ok(MaxFrom0(pages))
  }

  /** The page count the file is cut back to: the highest page named, and at least 1. */
  function Top(maxPgNo: int): (r: int)
    requires maxPgNo >= 0
    ensures r >= 1
  {
    if maxPgNo == 0 then 1 else maxPgNo
  }

  /** The first pass: the highest page number any record names, or 0. */
  method ScanMaxPgNo(lg: Logger.LoggerImpl) returns (r: Result<int>)
    requires lg.Valid()
    modifies lg`position
    ensures lg.Valid()
    ensures r.Ok? ==> LogOf(lg.file, lg.fileSize).Ok? && MaxPgNo(LogOf(lg.file, lg.fileSize).value) == r
  {
    lg.Rewind();
    var maxPgNo := 0;
    ghost var seen: seq<seq<byte>> := [];
    ghost var pages: seq<int> := [];
    if LogOf(lg.file, lg.fileSize).Ok? {
      assert [] + LogOf(lg.file, lg.fileSize).value == LogOf(lg.file, lg.fileSize).value;
    }
    while true
      invariant lg.Valid()
      invariant LogOf(lg.file, lg.fileSize) == Logger.Prepend(seen, Logger.Records(lg.file, lg.position, lg.fileSize))
      invariant MapResult(RecordPage, seen) == Ok(pages) && maxPgNo == MaxFrom0(pages)
      decreases lg.fileSize - lg.position
    {
      ghost var pos := lg.position;
      var next := lg.Next();
      if next.Err? {
        return Err(next.error);
      }
      if next.value.None? {
        assert Logger.Records(lg.file, lg.position, lg.fileSize) == Ok([]);
        assert seen + [] == seen;
        break;
      }
      var log := next.value.value;
      ghost var f, size, at := lg.file, lg.fileSize, lg.position;
      RecordsStep(f, pos, size, log, seen, at);
      var ins := IsInsertLog(log);
      if ins.Err? {
        return Err(ins.error);
      }
      var pgNo: int;
      if ins.value {
        var li := ParseInsertLog(log);
        if li.Err? {
          return Err(li.error);
        }
        pgNo := li.value.pgNo;
      } else {
        var xi := ParseUpdateLog(log);
        if xi.Err? {
          return Err(xi.error);
        }
        pgNo := xi.value.pgNo;
      }
      assert RecordPage(log) == Ok(pgNo);
      MapResultSnoc(RecordPage, seen, log);
      assert (pages + [pgNo])[..|pages|] == pages;
      if pgNo > maxPgNo {
        maxPgNo := pgNo;
      }
      pages := pages + [pgNo];
      seen := seen + [log];
    }
    r := Ok(maxPgNo);
  }

  /** The redo pass then the undo pass, as `recover` runs them after truncating. */
  method RedoThenUndo(tm: Ledger.LedgerImpl, lg: Logger.LoggerImpl, pc: PageCacheImpl, px: PageX, hash: seq<int>) returns (res: Outcome)
    requires pc.Valid() && Sound(px) && lg.Valid()
    modifies lg`position, pc`file, pc.rc, tm`file
    ensures pc.Valid() && lg.Valid() && pc.pageNumbers == old(pc.pageNumbers) && pc.rc.references == old(pc.rc.references)
    ensures res.Pass? ==>
      && LogOf(lg.file, lg.fileSize).Ok?
      && var logs := LogOf(lg.file, lg.fileSize).value;
      && RedoPlan(old(tm.file), logs).Ok?
      && Collect(old(tm.file), logs).Ok?
      && var g := Collect(old(tm.file), logs).value;
      && var order := IterOrder(hash, g);
      && PatchesOf(UndoOrder(order, g.logs), Undo).Ok?
      && tm.file == AbortAll(old(tm.file), order)
      && forall q :: Placeable(q) ==>
           pc.Content(q) == ApplyAt(px, RedoPlan(old(tm.file), logs).value + PatchesOf(UndoOrder(order, g.logs), Undo).value, q, old(pc.Content(q)))
  {
    var r := RedoTransactions(tm, lg, pc, px);
    if r.Fail? {
      return r;
    }
    res := UndoTransactions(tm, lg, pc, px, hash);
    if res.Fail? {
      return;
    }
    ghost var logs := LogOf(lg.file, lg.fileSize).value;
    ghost var redo := RedoPlan(old(tm.file), logs).value;
    ghost var g := Collect(old(tm.file), logs).value;
    ghost var undo := PatchesOf(UndoOrder(IterOrder(hash, g), g.logs), Undo).value;
    forall q | Placeable(q)
      ensures pc.Content(q) == ApplyAt(px, redo + undo, q, old(pc.Content(q)))
    {
      ApplyAppend(px, redo, undo, q, old(pc.Content(q)));
    }
  }

  /** A page count the file can be cut back to: the size `truncateByPageNo` computes is not negative. */
  predicate CutFits(top: int)
  {
    IsInt32(top) && PageOffset(Wrap32(top + 1)) >= 0
  }

  /** The pages as the engine sees them once the file is cut to `top` pages. */
  ghost function TruncatedView(cache: map<int, Page>, f: seq<byte>, top: int, q: int): seq<byte>
    requires CutFits(top) && Placeable(q)
  {
    View(cache, SetLength(f, PageOffset(Wrap32(top + 1))), q)
  }

  /**
   * `recover`: cut the page file back to the highest page the log names,
   * redo the finished transactions, undo the active ones. On success the
   * page count is that page, every page reads as the cut file with the redo
   * patches and then the undo patches applied, and the ledger has every
   * undone transaction aborted.
   */
  method Recover(tm: Ledger.LedgerImpl, lg: Logger.LoggerImpl, pc: PageCacheImpl, px: PageX, hash: seq<int>) returns (res: Outcome)
    requires pc.Valid() && Sound(px) && lg.Valid()
    modifies lg`position, pc`file, pc`pageNumbers, pc.rc, tm`file
    ensures pc.Valid() && lg.Valid() && pc.rc.references == old(pc.rc.references)
    ensures res.Pass? ==>
      && LogOf(lg.file, lg.fileSize).Ok?
      && var logs := LogOf(lg.file, lg.fileSize).value;
      && MaxPgNo(logs).Ok?
      && var top := Top(MaxPgNo(logs).value);
      && pc.pageNumbers == top
      && CutFits(top)
      && RedoPlan(old(tm.file), logs).Ok?
      && Collect(old(tm.file), logs).Ok?
      && var g := Collect(old(tm.file), logs).value;
      && var order := IterOrder(hash, g);
      && PatchesOf(UndoOrder(order, g.logs), Undo).Ok?
      && tm.file == AbortAll(old(tm.file), order)
      && forall q :: Placeable(q) ==>
           pc.Content(q) == ApplyAt(px, RedoPlan(old(tm.file), logs).value + PatchesOf(UndoOrder(order, g.logs), Undo).value, q,
             TruncatedView(old(pc.rc.cache), old(pc.file), top, q))
  {
    ghost var cache0, file0 := pc.rc.cache, pc.file;
    var m := ScanMaxPgNo(lg);
    if m.Err? {
      return Fail(m.error);
    }
    var maxPgNo := m.value;
    if maxPgNo == 0 {
      maxPgNo := 1;
    }
    var t := pc.TruncateByPageNo(maxPgNo);
    if t.Fail? {
      return t;
    }
    assert maxPgNo == Top(m.value) && CutFits(maxPgNo);
    assert pc.rc.cache == cache0;
    forall q | Placeable(q)
      ensures pc.Content(q) == TruncatedView(cache0, file0, maxPgNo, q)
    {
    }
    ghost var f, size := lg.file, lg.fileSize;
    res := RedoThenUndo(tm, lg, pc, px, hash);
    assert lg.file == f && lg.fileSize == size;
    assert Top(MaxPgNo(LogOf(f, size).value).value) == maxPgNo;
  }
}
