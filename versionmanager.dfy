/**
 * The version layer: the table of live transactions, their sticky errors,
 * automatic abort on a conflict, and the delete protocol that takes the
 * entry's lock in the lock table.
 *
 * The data manager is represented by what it holds: for each uid, the
 * bytes of the item's data part (an entry), or None for an item marked
 * invalid. The ledger and the lock table are the modelled classes.
 */
module VersionManager {
  import opened Wrappers
  import opened Bytes
  import opened Codec
  import opened Ledger
  import opened Visibility
  import Entries
  import DataItems
  import LockTable

  /** An item as the data manager hands it out: its data part, or None when it is marked invalid. */
  type Item = Option<seq<byte>>

  /** How far `delete` got: finished (with whether it deleted), or blocked on the entry's lock. */
  datatype Step = Done(deleted: bool) | Waits

  /** The creator of the entry held in `raw`. */
  function XminOf(raw: seq<byte>): int
  {
    Entries.XminAt(raw, 0).value
  }

  /** The deleter of the entry held in `raw`, 0 while nobody has deleted it. */
  function XmaxOf(raw: seq<byte>): int
    requires |raw| >= Entries.OF_XMAX
  {
    Entries.XmaxAt(raw, 0).value
  }

  /** The entry in `raw` with its xmax overwritten by `xid` (`setXmax`). */
  function StampXmax(raw: seq<byte>, xid: int): (r: seq<byte>)
    requires IsInt64(xid) && |raw| >= Entries.OF_DATA
    ensures |r| == |raw|
  {
    Pow256Values();
    DataItems.Splice(raw, Entries.OF_XMAX, Long2Byte(xid))
  }

  /**
   * `read` once the transaction has been found and has no sticky error:
   * an invalid item faults on its first field; otherwise the data of a
   * visible entry, or None for an invisible one.
   */
  function ReadOf(f: seq<byte>, t: Transaction, item: Item): (r: Result<Option<seq<byte>>>)
  {
    if item.None? then Err(NullPointer)
    else
      var raw := item.value;
      var xmin :- Entries.XminAt(raw, 0);
      var xmax :- Entries.XmaxAt(raw, 0);
      var visible :- IsVisible(f, t, xmin, xmax);
      if !visible then Ok(None)
      else
        var d :- Entries.DataAt(raw, 0, |raw|);
        Ok(Some(d))
  }

  /** A transaction reads back the entry it has just inserted, at either level. */
  lemma {:induction false} ReadOwnInsert(f: seq<byte>, t: Transaction, data: seq<byte>)
    requires IsInt64(t.xid)
    ensures ReadOf(f, t, Some(Entries.WrapEntryRaw(t.xid, data))) == Ok(Some(data))
  {
    var raw := Entries.WrapEntryRaw(t.xid, data);
    Pow256Values();
    assert raw[0..Entries.OF_DATA + |data|] == raw;
    Entries.WrapEntryFields(raw, 0, t.xid, data);
    OwnInsertVisible(f, t);
  }

  /**
   * Once a transaction other than the super one has stamped itself as an
   * entry's deleter, it no longer reads that entry.
   */
  lemma {:induction false} ReadAfterOwnDelete(f: seq<byte>, t: Transaction, raw: seq<byte>)
    requires IsInt64(t.xid) && t.xid != SUPER_XID && |raw| >= Entries.OF_DATA
    ensures ReadOf(f, t, Some(StampXmax(raw, t.xid))).Ok? ==> ReadOf(f, t, Some(StampXmax(raw, t.xid))) == Ok(None)
  {
    Entries.SpliceXmax(raw, 0, |raw|, t.xid);
    OwnDeleteInvisible(f, t, XminOf(StampXmax(raw, t.xid)));
  }

  /** Stamping xmax changes neither the creator nor the data of the entry. */
  lemma {:induction false} StampKeeps(raw: seq<byte>, xid: int)
    requires IsInt64(xid) && |raw| >= Entries.OF_DATA
    ensures XmaxOf(StampXmax(raw, xid)) == xid
    ensures XminOf(StampXmax(raw, xid)) == XminOf(raw)
    ensures StampXmax(raw, xid)[Entries.OF_DATA..] == raw[Entries.OF_DATA..]
  {
    Entries.SpliceXmax(raw, 0, |raw|, xid);
    assert Entries.DataAt(StampXmax(raw, xid), 0, |raw|) == Entries.DataAt(raw, 0, |raw|);
  }

  /**
   * Repeatable read: what `read` answers does not change when transactions
   * that were active when the reader began, or began after it, commit.
   */
  lemma {:induction false} ReadStable(f: seq<byte>, g: seq<byte>, t: Transaction, item: Item)
    requires t.level != 0
    requires forall y :: y < t.xid && !InSnapshot(t, y) ==> Committed(f, y) == Committed(g, y)
    ensures ReadOf(f, t, item) == ReadOf(g, t, item)
  {
    if item.Some? && |item.value| >= Entries.OF_XMAX {
      RepeatableReadStable(f, g, t, XminOf(item.value), XmaxOf(item.value));
    }
  }

  class VersionManagerImpl {
    const tm: LedgerImpl
    const lt: LockTable.LockTableImpl
    var active: map<int, Transaction>
    var store: map<int, Item>

    /**
     * Each registered transaction is filed under its own id, which the
     * ledger can record; only a transaction with an error is flagged as
     * auto-aborted; every valid item holds at least an entry's two headers.
     */
    ghost predicate Valid()
      reads this
    {
      && (forall x :: x in active ==>
            && active[x].xid == x && IsInt64(x) && XidPosition(x) >= 0
            && (active[x].autoAborted ==> active[x].err == Some(ConcurrentUpdate)))
      && (forall u :: u in store && store[u].Some? ==> |store[u].value| >= Entries.OF_DATA)
    }

    /** The transaction `xid` is registered and has no sticky error. */
    predicate Live(xid: int)
      reads this
    {
      xid in active && active[xid].err.None?
    }

    /**
     * The constructor registers the super transaction 0 at read-committed;
     * `store` is what the data manager already holds.
     */
    constructor (tm: LedgerImpl, store: map<int, Item>)
      requires forall u :: u in store && store[u].Some? ==> |store[u].value| >= Entries.OF_DATA
      ensures Valid() && fresh(lt)
      ensures this.tm == tm && this.store == store
      ensures active == map[SUPER_XID := Transaction(SUPER_XID, 0, {}, None, false)]
      ensures lt.x2u == map[] && lt.State() == LockTable.Grants(map[], map[], {}, map[])
    {
      this.tm := tm;
      this.lt := new LockTable.LockTableImpl();
      this.store := store;
      this.active := map[SUPER_XID := Transaction(SUPER_XID, 0, {}, None, false)];
    }

    /**
     * `begin`: the ledger hands out the next id, which is registered with
     * the level and the snapshot of transactions active at this point.
     */
    method Begin(level: int, snapshot: set<int>) returns (r: Result<int>)
      requires Valid() && IsInt64(tm.xidCounter)
      modifies this`active, tm
      ensures Valid()
      ensures r.Ok? ==> r.value == Wrap64(old(tm.xidCounter) + 1)
      ensures r.Ok? ==> active == old(active)[r.value := Transaction(r.value, level, snapshot, None, false)]
      ensures r.Err? ==> active == old(active)
      ensures old(tm.Valid()) && old(tm.xidCounter) < TWO_63 - 9 ==>
        && r == Ok(old(tm.xidCounter) + 1) && tm.Valid()
        && Active(tm.file, r.value) == Ok(true)
    {
      r := tm.Begin();
      if r.Ok? {
        active := active[r.value := Transaction(r.value, level, snapshot, None, false)];
      }
    }

    /**
     * `read`: a missing transaction faults, a sticky error is rethrown, and
     * otherwise the entry is read as `ReadOf` says. Nothing changes.
     */
    method Read(xid: int, uid: int) returns (r: Result<Option<seq<byte>>>)
      requires Valid() && uid in store
      ensures xid !in active ==> r == Err(NullPointer)
      ensures xid in active && active[xid].err.Some? ==> r == Err(active[xid].err.value)
      ensures Live(xid) ==> r == ReadOf(tm.file, active[xid], store[uid])
    {
      if xid !in active {
        return Err(NullPointer);
      }
      var t := active[xid];
      if t.err.Some? {
        return Err(t.err.value);
      }
      var item := store[uid];
      if item.None? {
        return Err(NullPointer);
      }
      var raw := item.value;
      var visible := IsVisible(tm.file, t, XminOf(raw), XmaxOf(raw));
      if visible.Err? {
        return Err(visible.error);
      }
      if !visible.value {
        return Ok(None);
      }
      var d := Entries.DataAt(raw, 0, |raw|).value;
      r := Ok(Some(d));
    }

    /**
     * `insert`: the entry `wrapEntryRaw(xid, data)` goes to the data
     * manager, whose answer `placed` (the new uid, or its error) is the
     * result. The inserting transaction reads the new entry back.
     */
    method Insert(xid: int, data: seq<byte>, placed: Result<int>) returns (r: Result<int>)
      requires Valid()
      requires placed.Ok? ==> placed.value !in store
      modifies this`store
      ensures Valid()
      ensures xid !in active ==> r == Err(NullPointer) && store == old(store)
      ensures xid in active && active[xid].err.Some? ==> r == Err(active[xid].err.value) && store == old(store)
      ensures Live(xid) ==> r == placed
      ensures r.Err? ==> store == old(store)
      ensures r.Ok? ==> Live(xid) && store == old(store)[r.value := Some(Entries.WrapEntryRaw(xid, data))]
      ensures r.Ok? ==> ReadOf(tm.file, active[xid], store[r.value]) == Ok(Some(data))
    {
      if xid !in active {
        return Err(NullPointer);
      }
      var t := active[xid];
      if t.err.Some? {
        return Err(t.err.value);
      }
      var raw := Entries.WrapEntryRaw(xid, data);
      if placed.Err? {
        return placed;
      }
      Pow256Values();
      store := store[placed.value := Some(raw)];
      ReadOwnInsert(tm.file, t, data);
      r := placed;
    }

    /**
     * `internAbort`: an explicit abort deregisters the transaction; an
     * automatic one keeps it. A transaction already auto-aborted is left
     * at that; otherwise its locks are released and the ledger marks it
     * aborted. A missing transaction faults.
     */
    method InternAbort(xid: int, auto: bool) returns (res: Outcome)
      requires Valid()
      modifies this`active, lt`x2u, lt`u2x, lt`wait, lt`waitLock, lt`waitU, tm`file
      ensures Valid()
      ensures active == if auto then old(active) else old(active) - {xid}
      ensures xid !in old(active) ==> res == Fail(NullPointer)
      ensures xid !in old(active) || old(active[xid].autoAborted) ==>
        lt.State() == old(lt.State()) && lt.x2u == old(lt.x2u) && tm.file == old(tm.file)
      ensures xid in old(active) && !old(active[xid].autoAborted) ==>
        && res == Pass
        && lt.State() == LockTable.RemovedAsWritten(old(lt.x2u), old(lt.State()), xid).1
        && lt.x2u == LockTable.RemovedAsWritten(old(lt.x2u), old(lt.State()), xid).0
        && tm.file == WriteAt(old(tm.file), XidPosition(xid), [ABORTED])
      ensures xid in old(active) && old(active[xid].autoAborted) ==> res == Pass
      ensures old(tm.Valid()) && xid in old(active) && !old(active[xid].autoAborted) && 1 <= xid <= tm.xidCounter ==>
        tm.Valid() && Aborted(tm.file, xid) == Ok(true)
    {
      var found := xid in active;
      var t := if found then active[xid] else Transaction(xid, 0, {}, None, false);
      if !auto {
        active := active - {xid};
      }
      if !found {
        return Fail(NullPointer);
      }
      if t.autoAborted {
        return Pass;
      }
      lt.Remove(xid);
      res := tm.Abort(xid);
    }

    /** `abort`. */
    method Abort(xid: int) returns (res: Outcome)
      requires Valid()
      modifies this`active, lt`x2u, lt`u2x, lt`wait, lt`waitLock, lt`waitU, tm`file
      ensures Valid()
      ensures active == old(active) - {xid}
      ensures xid !in old(active) ==> res == Fail(NullPointer)
      ensures xid in old(active) && old(active[xid].autoAborted) ==>
        res == Pass && lt.State() == old(lt.State()) && lt.x2u == old(lt.x2u) && tm.file == old(tm.file)
      ensures xid in old(active) && !old(active[xid].autoAborted) ==>
        && res == Pass
        && lt.State() == LockTable.RemovedAsWritten(old(lt.x2u), old(lt.State()), xid).1
        && lt.x2u == LockTable.RemovedAsWritten(old(lt.x2u), old(lt.State()), xid).0
        && tm.file == WriteAt(old(tm.file), XidPosition(xid), [ABORTED])
      ensures old(tm.Valid()) && xid in old(active) && !old(active[xid].autoAborted) && 1 <= xid <= tm.xidCounter ==>
        tm.Valid() && Aborted(tm.file, xid) == Ok(true)
    {
      res := InternAbort(xid, false);
    }

    /**
     * `autoAbortTransaction`, after the transaction's error has been set:
     * it is aborted but stays registered, flagged, and the error is thrown.
     */
    method AutoAbort(xid: int) returns (r: Result<Step>)
      requires Valid() && xid in active && active[xid].err == Some(ConcurrentUpdate) && !active[xid].autoAborted
      modifies this`active, lt`x2u, lt`u2x, lt`wait, lt`waitLock, lt`waitU, tm`file
      ensures Valid()
      ensures r == Err(ConcurrentUpdate)
      ensures active == old(active)[xid := old(active[xid]).(autoAborted := true)]
      ensures lt.State() == LockTable.RemovedAsWritten(old(lt.x2u), old(lt.State()), xid).1
        && lt.x2u == LockTable.RemovedAsWritten(old(lt.x2u), old(lt.State()), xid).0
      ensures tm.file == WriteAt(old(tm.file), XidPosition(xid), [ABORTED])
    {
      var _ := InternAbort(xid, true);
      var t := active[xid];
      active := active[xid := t.(autoAborted := true)];
      r := Err(t.err.value);
    }

    /**
     * `commit`: a missing transaction is fatal and a sticky error is
     * rethrown, both leaving everything as it was; otherwise the
     * transaction is deregistered, its locks are released and the ledger
     * marks it committed.
     */
    method Commit(xid: int) returns (res: Outcome)
      requires Valid()
      modifies this`active, lt`x2u, lt`u2x, lt`wait, lt`waitLock, lt`waitU, tm`file
      ensures Valid()
      ensures xid !in old(active) ==> res == Fail(NullPointer)
      ensures xid in old(active) && old(active[xid].err).Some? ==> res == Fail(old(active[xid].err.value))
      ensures !old(Live(xid)) ==>
        active == old(active) && lt.State() == old(lt.State()) && lt.x2u == old(lt.x2u) && tm.file == old(tm.file)
      ensures old(Live(xid)) ==>
        && res == Pass && active == old(active) - {xid}
        && lt.State() == LockTable.RemovedAsWritten(old(lt.x2u), old(lt.State()), xid).1
        && lt.x2u == LockTable.RemovedAsWritten(old(lt.x2u), old(lt.State()), xid).0
        && tm.file == WriteAt(old(tm.file), XidPosition(xid), [COMMITTED])
      ensures old(tm.Valid()) && old(Live(xid)) && 1 <= xid <= tm.xidCounter ==>
        tm.Valid() && Committed(tm.file, xid) == Ok(true)
    {
      if xid !in active {
        return Fail(NullPointer);
      }
      var t := active[xid];
      if t.err.Some? {
        return Fail(t.err.value);
      }
      active := active - {xid};
      lt.Remove(xid);
      res := tm.Commit(xid);
    }

    /**
     * `delete` up to the entry's lock: a missing transaction or an invalid
     * item faults, a sticky error is rethrown, an entry the transaction
     * cannot see is not deleted. Then the lock is requested: a deadlock
     * (or a broken wait-for walk) auto-aborts the transaction, a lock held
     * by another transaction leaves it waiting, and a granted lock lets
     * `ResumeDelete` finish.
     */
    method Delete(xid: int, uid: int, order: seq<int>) returns (r: Result<Step>)
      requires Valid() && uid in store
      requires forall k :: k in lt.x2u <==> k in order
      modifies this`active, this`store, lt, tm`file
      ensures Valid()
      ensures xid !in old(active) ==> r == Err(NullPointer)
      ensures xid in old(active) && old(active[xid].err).Some? ==> r == Err(old(active[xid].err.value))
      ensures old(Live(xid)) && old(store[uid]).None? ==> r == Err(NullPointer)
      ensures old(Live(xid)) && old(store[uid]).Some? ==>
        var raw := old(store[uid]).value;
        var visible := IsVisible(old(tm.file), old(active[xid]), XminOf(raw), XmaxOf(raw));
        && (visible.Err? ==> r == Err(visible.error))
        && (visible == Ok(false) ==> r == Ok(Done(false)))
        && (r.Ok? && r.value.Done? ==> visible.Ok?)
        && (r == Ok(Done(true)) ==> visible == Ok(true) && XmaxOf(raw) != xid)
      ensures !old(Live(xid)) || (r.Err? && r.error != ConcurrentUpdate) || r == Ok(Done(false)) || r == Ok(Waits) ==>
        store == old(store) && active == old(active) && tm.file == old(tm.file)
      ensures r == Ok(Waits) ==>
        && lt.waitU == old(lt.waitU)[xid := uid] && xid in lt.waitLock
        && uid in lt.u2x && lt.u2x == old(lt.u2x) && lt.x2u == old(lt.x2u)
      ensures r == Ok(Done(true)) ==>
        && old(Live(xid)) && old(store[uid]).Some?
        && store == old(store)[uid := Some(StampXmax(old(store[uid]).value, xid))]
        && active == old(active) && tm.file == old(tm.file)
      ensures old(Live(xid)) && r == Err(ConcurrentUpdate) ==>
        && store == old(store)
        && active == old(active)[xid := old(active[xid]).(err := Some(ConcurrentUpdate), autoAborted := true)]
        && xid !in lt.x2u && xid !in lt.waitLock && xid !in lt.waitU
        && tm.file == WriteAt(old(tm.file), XidPosition(xid), [ABORTED])
    {
      if xid !in active {
        return Err(NullPointer);
      }
      var t := active[xid];
      if t.err.Some? {
        return Err(t.err.value);
      }
      var item := store[uid];
      if item.None? {
        return Err(NullPointer);
      }
      var raw := item.value;
      var visible := IsVisible(tm.file, t, XminOf(raw), XmaxOf(raw));
      if visible.Err? {
        return Err(visible.error);
      }
      if !visible.value {
        return Ok(Done(false));
      }
      r := LockEntry(xid, uid, order);
    }

    /**
     * A concurrent update was met: the transaction's error is set to it and
     * the transaction is auto-aborted, which also withdraws it from the lock
     * table.
     */
    method AbortConcurrent(xid: int) returns (r: Result<Step>)
      requires Valid() && Live(xid)
      modifies this`active, lt`x2u, lt`u2x, lt`wait, lt`waitLock, lt`waitU, tm`file
      ensures Valid() && r == Err(ConcurrentUpdate)
      ensures active == old(active)[xid := old(active[xid]).(err := Some(ConcurrentUpdate), autoAborted := true)]
      ensures lt.State() == LockTable.RemovedAsWritten(old(lt.x2u), old(lt.State()), xid).1
        && lt.x2u == LockTable.RemovedAsWritten(old(lt.x2u), old(lt.State()), xid).0
      ensures xid !in lt.x2u && xid !in lt.waitLock && xid !in lt.waitU
      ensures tm.file == WriteAt(old(tm.file), XidPosition(xid), [ABORTED])
    {
      active := active[xid := active[xid].(err := Some(ConcurrentUpdate))];
      r := AutoAbort(xid);
    }

    /**
     * The lock request of `delete`: any failure of the lock table
     * auto-aborts the transaction, a lock held by another transaction
     * leaves it waiting, and a granted lock lets `ResumeDelete` finish.
     */
    method LockEntry(xid: int, uid: int, order: seq<int>) returns (r: Result<Step>)
      requires Valid() && Live(xid) && uid in store && store[uid].Some?
      requires forall k :: k in lt.x2u <==> k in order
      modifies this`active, this`store, lt, tm`file
      ensures Valid()
      ensures r != Err(ConcurrentUpdate) ==> active == old(active) && tm.file == old(tm.file)
      ensures r != Ok(Done(true)) ==> store == old(store)
      ensures r == Ok(Waits) ==>
        && lt.waitU == old(lt.waitU)[xid := uid] && xid in lt.waitLock
        && uid in lt.u2x && lt.u2x == old(lt.u2x) && lt.x2u == old(lt.x2u)
      ensures r == Ok(Done(true)) ==>
        && XmaxOf(old(store[uid]).value) != xid
        && store == old(store)[uid := Some(StampXmax(old(store[uid]).value, xid))]
      ensures r == Err(ConcurrentUpdate) ==>
        && active == old(active)[xid := old(active[xid]).(err := Some(ConcurrentUpdate), autoAborted := true)]
        && xid !in lt.x2u && xid !in lt.waitLock && xid !in lt.waitU
        && tm.file == WriteAt(old(tm.file), XidPosition(xid), [ABORTED])
    {
      var lock := lt.Add(xid, uid, order);
      if lock.Err? {
        r := AbortConcurrent(xid);
        return;
      }
      if lock.value {
        return Ok(Waits);
      }
      r := ResumeDelete(xid, uid);
    }

    /**
     * `delete` once the entry's lock is held: an entry this transaction
     * already deleted is not deleted again; a version skip auto-aborts the
     * transaction; otherwise xmax is stamped with `xid`, leaving the
     * creator and the data alone, and the deleting transaction no longer
     * reads the entry.
     */
    method ResumeDelete(xid: int, uid: int) returns (r: Result<Step>)
      requires Valid() && Live(xid) && uid in store
      modifies this`active, this`store, lt`x2u, lt`u2x, lt`wait, lt`waitLock, lt`waitU, tm`file
      ensures Valid()
      ensures old(store[uid]).None? ==> r == Err(NullPointer)
      ensures old(store[uid]).Some? ==>
        var raw := old(store[uid]).value;
        var skip := IsVersionSkip(old(tm.file), old(active[xid]), XmaxOf(raw));
        && (XmaxOf(raw) == xid ==> r == Ok(Done(false)))
        && (XmaxOf(raw) != xid ==>
              && (skip.Err? ==> r == Err(skip.error))
              && (skip == Ok(true) ==> r == Err(ConcurrentUpdate))
              && (skip == Ok(false) ==> r == Ok(Done(true))))
      ensures r != Err(ConcurrentUpdate) ==>
        && active == old(active) && tm.file == old(tm.file)
        && lt.State() == old(lt.State()) && lt.x2u == old(lt.x2u)
      ensures r != Ok(Done(true)) ==> store == old(store)
      ensures r == Ok(Done(true)) ==>
        && old(store[uid]).Some?
        && store == old(store)[uid := Some(StampXmax(old(store[uid]).value, xid))]
        && XmaxOf(store[uid].value) == xid && XminOf(store[uid].value) == XminOf(old(store[uid]).value)
        && store[uid].value[Entries.OF_DATA..] == old(store[uid]).value[Entries.OF_DATA..]
      ensures r == Ok(Done(true)) && xid != SUPER_XID ==> ReadOf(tm.file, active[xid], store[uid]).Ok? ==>
        ReadOf(tm.file, active[xid], store[uid]) == Ok(None)
      ensures r == Err(ConcurrentUpdate) ==>
        && active == old(active)[xid := old(active[xid]).(err := Some(ConcurrentUpdate), autoAborted := true)]
        && lt.State() == LockTable.RemovedAsWritten(old(lt.x2u), old(lt.State()), xid).1
        && lt.x2u == LockTable.RemovedAsWritten(old(lt.x2u), old(lt.State()), xid).0
        && xid !in lt.x2u && xid !in lt.waitLock && xid !in lt.waitU
        && tm.file == WriteAt(old(tm.file), XidPosition(xid), [ABORTED])
    {
      var t := active[xid];
      var item := store[uid];
      if item.None? {
        return Err(NullPointer);
      }
      var raw := item.value;
      if XmaxOf(raw) == xid {
        return Ok(Done(false));
      }
      var skip := IsVersionSkip(tm.file, t, XmaxOf(raw));
      if skip.Err? {
        return Err(skip.error);
      }
      if skip.value {
        r := AbortConcurrent(xid);
        return;
      }
      StampKeeps(raw, xid);
      store := store[uid := Some(StampXmax(raw, xid))];
      if xid != SUPER_XID {
        ReadAfterOwnDelete(tm.file, t, raw);
      }
      r := Ok(Done(true));
    }
  }
}
