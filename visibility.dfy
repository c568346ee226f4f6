/**
 * Which version of an entry a transaction may see.
 *
 * The decisions read the entry's xmin and xmax and ask the transaction
 * ledger `f` whether a transaction committed; a ledger query on an id whose
 * status byte would lie before the file faults, and the fault propagates.
 * Level 0 is read-committed; any other level is repeatable-read, which also
 * consults the transaction's snapshot: the ids that were active when it
 * began.
 */
module Visibility {
  import opened Wrappers
  import opened Bytes
  import opened Ledger

  /** `Transaction`: a live transaction of the version layer. */
  datatype Transaction = Transaction(xid: int, level: int, snapshot: set<int>, err: Option<Error>, autoAborted: bool)

  /** `isInSnapshot`. */
  predicate InSnapshot(t: Transaction, x: int)
  {
    x in t.snapshot
  }

  /** `readCommitted`: the ledger queries in the order the source makes them. */
  function ReadCommitted(f: seq<byte>, xid: int, xmin: int, xmax: int): Result<bool>
  {
    if xmin == xid && xmax == 0 then Ok(true)
    else
      var minCommitted :- Committed(f, xmin);
      if !minCommitted then Ok(false)
      else if xmax == 0 then Ok(true)
      else if xmax == xid then Ok(false)
      else
        var maxCommitted :- Committed(f, xmax);
        Ok(!maxCommitted)
  }

  /** `repeatableRead`. */
  function RepeatableRead(f: seq<byte>, t: Transaction, xmin: int, xmax: int): Result<bool>
  {
    if xmin == t.xid && xmax == 0 then Ok(true)
    else if !(xmin < t.xid) then Ok(false)
    else
      var minCommitted :- Committed(f, xmin);
      if !minCommitted || InSnapshot(t, xmin) then Ok(false)
      else if xmax == 0 then Ok(true)
      else if xmax == t.xid then Ok(false)
      else
        var maxCommitted :- Committed(f, xmax);
        Ok(!maxCommitted || xmax > t.xid || InSnapshot(t, xmax))
  }

  /** `isVisible`: read-committed at level 0, repeatable-read otherwise. */
  function IsVisible(f: seq<byte>, t: Transaction, xmin: int, xmax: int): Result<bool>
  {
    if t.level == 0 then ReadCommitted(f, t.xid, xmin, xmax) else RepeatableRead(f, t, xmin, xmax)
  }

  /**
   * `isVersionSkip`: at repeatable-read, the entry was deleted by a
   * committed transaction this one cannot see.
   */
  function IsVersionSkip(f: seq<byte>, t: Transaction, xmax: int): Result<bool>
  {
    if t.level == 0 then Ok(false)
    else
      var maxCommitted :- Committed(f, xmax);
      Ok(maxCommitted && (xmax > t.xid || InSnapshot(t, xmax)))
  }

  /** The ledger answers a query about `x` without fault. */
  predicate Known(x: int)
  {
    XidPosition(x) >= 0 || x == SUPER_XID
  }

  /**
   * `isCommitted` answers exactly for the known ids; among `long` ids those
   * are -7 to 2^63 - 8, since the last seven ids' positions wrap negative.
   */
  lemma {:induction false} CommittedKnown(f: seq<byte>, x: int)
    ensures Committed(f, x).Ok? <==> Known(x)
    ensures IsInt64(x) ==> (Committed(f, x).Ok? <==> -7 <= x <= TWO_63 - 8)
  {
  }

  /**
   * Read-committed as a condition on the ledger, when both ids can be
   * looked up: the transaction's own live insert, or a committed insert
   * whose deletion (if any) is by another transaction that has not
   * committed.
   */
  lemma {:induction false} ReadCommittedMeaning(f: seq<byte>, xid: int, xmin: int, xmax: int)
    requires Known(xmin) && Known(xmax)
    ensures ReadCommitted(f, xid, xmin, xmax) == Ok(
      (xmin == xid && xmax == 0)
      || (Committed(f, xmin) == Ok(true) && (xmax == 0 || (xmax != xid && Committed(f, xmax) == Ok(false)))))
  {
    CommittedKnown(f, xmin);
    CommittedKnown(f, xmax);
  }

  /**
   * Repeatable-read as a condition on the ledger and the snapshot: the
   * transaction's own live insert, or an insert by an older transaction
   * that had committed before this one began, not deleted, or deleted by
   * another transaction that has not committed, began later or was still
   * active when this one began.
   */
  lemma {:induction false} RepeatableReadMeaning(f: seq<byte>, t: Transaction, xmin: int, xmax: int)
    requires Known(xmin) && Known(xmax)
    ensures RepeatableRead(f, t, xmin, xmax) == Ok(
      (xmin == t.xid && xmax == 0)
      || (xmin < t.xid && Committed(f, xmin) == Ok(true) && !InSnapshot(t, xmin)
          && (xmax == 0 || (xmax != t.xid
                && (Committed(f, xmax) == Ok(false) || xmax > t.xid || InSnapshot(t, xmax))))))
  {
    CommittedKnown(f, xmin);
    CommittedKnown(f, xmax);
  }

  /** At either level a transaction sees the entries it created and has not deleted. */
  lemma {:induction false} OwnInsertVisible(f: seq<byte>, t: Transaction)
    ensures IsVisible(f, t, t.xid, 0) == Ok(true)
  {
  }

  /** At either level a transaction other than the super one never sees an entry it deleted. */
  lemma {:induction false} OwnDeleteInvisible(f: seq<byte>, t: Transaction, xmin: int)
    requires t.xid != SUPER_XID
    ensures IsVisible(f, t, xmin, t.xid) != Ok(true)
  {
  }

  /**
   * Repeatable read: what a transaction sees does not change when
   * transactions commit that were active when it began or began after it.
   * Two ledgers that agree on every older id outside the snapshot give the
   * same answer.
   */
  lemma {:induction false} RepeatableReadStable(f: seq<byte>, g: seq<byte>, t: Transaction, xmin: int, xmax: int)
    requires forall y :: y < t.xid && !InSnapshot(t, y) ==> Committed(f, y) == Committed(g, y)
    ensures RepeatableRead(f, t, xmin, xmax) == RepeatableRead(g, t, xmin, xmax)
  {
    if xmin < t.xid && !(xmin == t.xid && xmax == 0) {
      CommittedKnown(f, xmin);
      CommittedKnown(g, xmin);
      CommittedKnown(f, xmax);
      CommittedKnown(g, xmax);
      if !InSnapshot(t, xmin) {
        assert Committed(f, xmin) == Committed(g, xmin);
        if xmax < t.xid && !InSnapshot(t, xmax) {
          assert Committed(f, xmax) == Committed(g, xmax);
        }
      }
    }
  }

  /**
   * A version skip at repeatable-read means the deleter committed and is
   * one this transaction cannot see; read-committed never skips.
   */
  lemma {:induction false} VersionSkipMeaning(f: seq<byte>, t: Transaction, xmax: int)
    requires Known(xmax)
    ensures t.level == 0 ==> IsVersionSkip(f, t, xmax) == Ok(false)
    ensures t.level != 0 ==>
      IsVersionSkip(f, t, xmax) == Ok(Committed(f, xmax) == Ok(true) && (xmax > t.xid || InSnapshot(t, xmax)))
  {
    CommittedKnown(f, xmax);
  }
}
