/**
 * The per-connection executor: parses a statement and runs it against the
 * table manager, keeping the connection's transaction id.
 *
 * The table manager is outside this model. Every call the executor makes
 * to it is recorded in a trace, and what it answers during one statement
 * (the id a begin hands out, the bytes or the exception of the call that
 * runs the statement, whether a commit throws) is a parameter.
 */
module Executors {
  import opened Wrappers
  import opened Bytes
  import opened SqlParser

  /** A call the executor makes to the table manager. */
  datatype Call =
    | BeginCall(isRepeatableRead: bool)
    | CommitCall(xid: int)
    | AbortCall(xid: int)
    | StatementCall(xid: int, stat: Statement)

  /** What the table manager answers while one statement runs. */
  datatype Replies = Replies(
    begun: int,
    beginResult: seq<byte>,
    reply: Result<seq<byte>>,
    commitReply: Result<seq<byte>>,
    abortReply: seq<byte>)

  /** The new transaction id, the calls made, and the bytes returned (None for null) or the exception. */
  datatype Step = Step(xid: int, calls: seq<Call>, result: Result<Option<seq<byte>>>)

  /** The statements `execute2` hands to the table manager; `drop` is not one of them. */
  predicate Dispatched(s: Statement)
  {
    s.Show? || s.Create? || s.Select? || s.Insert? || s.Delete? || s.Update?
  }

  /** The statements `execute` handles itself. */
  predicate Control(s: Statement)
  {
    s.Begin? || s.Commit? || s.Abort?
  }

  function AsReply(r: Result<seq<byte>>): Result<Option<seq<byte>>>
  {
    match r
    case Ok(b) => Ok(Some(b))
    case Err(e) => Err(e)
  }

  /**
   * `execute2`: outside a transaction the statement runs in a temporary
   * one, begun at the default level and ended in the `finally` block:
   * aborted when the statement threw, committed otherwise. A commit that
   * throws there replaces the result and skips the reset of the id.
   */
  function Execute2Spec(xid: int, stat: Option<Statement>, rp: Replies): Step
  {
    var tmp := xid == 0;
    var x := if tmp then rp.begun else xid;
    var opening := if tmp then [BeginCall(false)] else [];
    var work := if stat.Some? && Dispatched(stat.value) then [StatementCall(x, stat.value)] else [];
    var res := if stat.Some? && Dispatched(stat.value) then AsReply(rp.reply) else Ok(None);
    if !tmp then Step(x, work, res)
    else if res.Err? then Step(0, opening + work + [AbortCall(x)], res)
    else if rp.commitReply.Err? then Step(x, opening + work + [CommitCall(x)], Err(rp.commitReply.error))
    else Step(0, opening + work + [CommitCall(x)], res)
  }

  /**
   * `execute`: `begin`, `commit` and `abort` move the connection in and
   * out of a transaction; everything else, a failed parse included, goes
   * to `execute2`.
   */
  function ExecuteSpec(xid: int, stat: Option<Statement>, rp: Replies): Step
  {
    if stat.Some? && stat.value.Begin? then
      if xid != 0 then Step(xid, [], Err(NestedTransaction))
      else Step(rp.begun, [BeginCall(stat.value.isRepeatableRead)], Ok(Some(rp.beginResult)))
    else if stat.Some? && stat.value.Commit? then
      if xid == 0 then Step(xid, [], Err(NoTransaction))
      else if rp.commitReply.Err? then Step(xid, [CommitCall(xid)], Err(rp.commitReply.error))
      else Step(0, [CommitCall(xid)], Ok(Some(rp.commitReply.value)))
    else if stat.Some? && stat.value.Abort? then
      if xid == 0 then Step(xid, [], Err(NoTransaction))
      else Step(0, [AbortCall(xid)], Ok(Some(rp.abortReply)))
    else Execute2Spec(xid, stat, rp)
  }

  /** `close`: the open transaction, if any, is aborted. */
  function CloseCalls(xid: int): seq<Call>
  {
    if xid != 0 then [AbortCall(xid)] else []
  }

  class ExecutorImpl {
    var xid: int
    /** The table-manager calls made so far, oldest first. */
    var calls: seq<Call>

    constructor ()
      ensures xid == 0 && calls == []
    {
      xid := 0;
      calls := [];
    }

    method Close()
      modifies this
      ensures xid == old(xid) && calls == old(calls) + CloseCalls(old(xid))
    {
      if xid != 0 {
        calls := calls + [AbortCall(xid)];
      } else {
        assert calls + [] == calls;
      }
    }

    method Execute(toks: Tokens, rp: Replies) returns (r: Result<Option<seq<byte>>>)
      modifies this
      ensures var s := ExecuteSpec(old(xid), ParseStat(toks), rp);
        xid == s.xid && calls == old(calls) + s.calls && r == s.result
    {
      var stat := Parse(toks);
      if stat.Some? && stat.value.Begin? {
        if xid != 0 {
          assert calls + [] == calls;
          return Err(NestedTransaction);
        }
        calls := calls + [BeginCall(stat.value.isRepeatableRead)];
        xid := rp.begun;
        r := Ok(Some(rp.beginResult));
      } else if stat.Some? && stat.value.Commit? {
        if xid == 0 {
          assert calls + [] == calls;
          return Err(NoTransaction);
        }
        calls := calls + [CommitCall(xid)];
        if rp.commitReply.Err? {
          return Err(rp.commitReply.error);
        }
        xid := 0;
        r := Ok(Some(rp.commitReply.value));
      } else if stat.Some? && stat.value.Abort? {
        if xid == 0 {
          assert calls + [] == calls;
          return Err(NoTransaction);
        }
        calls := calls + [AbortCall(xid)];
        xid := 0;
        r := Ok(Some(rp.abortReply));
      } else {
        r := Execute2(stat, rp);
      }
    }

    method Execute2(stat: Option<Statement>, rp: Replies) returns (r: Result<Option<seq<byte>>>)
      modifies this
      ensures var s := Execute2Spec(old(xid), stat, rp);
        xid == s.xid && calls == old(calls) + s.calls && r == s.result
    {
      ghost var calls0 := calls;
      var tmpTransaction := false;
      if xid == 0 {
        tmpTransaction := true;
        calls := calls + [BeginCall(false)];
        xid := rp.begun;
      }
      ghost var started := calls;
      var res: Result<Option<seq<byte>>> := Ok(None);
      if stat.Some? && Dispatched(stat.value) {
        calls := calls + [StatementCall(xid, stat.value)];
        res := AsReply(rp.reply);
      }
      ghost var worked := calls;
      // the finally block
      if tmpTransaction {
        if res.Err? {
          calls := calls + [AbortCall(xid)];
          xid := 0;
        } else {
          calls := calls + [CommitCall(xid)];
          if rp.commitReply.Err? {
            res := Err(rp.commitReply.error);
          } else {
            xid := 0;
          }
        }
        assert calls == calls0 + ([BeginCall(false)] + worked[|started|..] + calls[|worked|..]);
      } else {
        assert calls == calls0 + worked[|started|..];
      }
      r := res;
    }
  }

  // ---------------------------------------------------------------
  // What a session does

  /** How a call changes the number of open transactions. */
  function Delta(c: Call): int
  {
    if c.BeginCall? then 1 else if c.CommitCall? || c.AbortCall? then -1 else 0
  }

  /** How many transactions the calls begin and do not end. */
  function OpenCount(calls: seq<Call>): int
  {
    if |calls| == 0 then 0 else Delta(calls[0]) + OpenCount(calls[1..])
  }

  lemma {:induction false} OpenCountAppend(a: seq<Call>, b: seq<Call>)
    ensures OpenCount(a + b) == OpenCount(a) + OpenCount(b)
    decreases |a|
  {
    if |a| == 0 {
      assert a + b == b;
    } else {
      assert (a + b)[1..] == a[1..] + b;
      OpenCountAppend(a[1..], b);
    }
  }

  /** Whether the connection is inside a transaction, as a count. */
  function Inside(xid: int): int
  {
    if xid != 0 then 1 else 0
  }

  /**
   * One statement opens a transaction exactly when it leaves the
   * connection inside one, and closes one exactly when it leaves it: the
   * calls it makes change the number of open transactions by the change in
   * `Inside`. This holds when the table manager hands out a non-zero id and
   * commits without throwing.
   */
  lemma {:induction false} ExecuteBalances(xid: int, stat: Option<Statement>, rp: Replies)
    requires rp.begun != 0 && rp.commitReply.Ok?
    ensures var s := ExecuteSpec(xid, stat, rp);
      OpenCount(s.calls) == Inside(s.xid) - Inside(xid)
  {
    if stat.Some? && Control(stat.value) {
      var s := ExecuteSpec(xid, stat, rp);
      assert |s.calls| <= 1;
      if |s.calls| == 1 {
        assert OpenCount(s.calls) == Delta(s.calls[0]);
      }
    } else if xid == 0 {
      TemporaryBalances(stat, rp);
    } else {
      InsideTransaction(xid, stat, rp);
    }
  }

  lemma {:induction false} TemporaryBalances(stat: Option<Statement>, rp: Replies)
    requires !(stat.Some? && Control(stat.value)) && rp.begun != 0 && rp.commitReply.Ok?
    ensures var s := ExecuteSpec(0, stat, rp);
      OpenCount(s.calls) == Inside(s.xid) && s.xid == 0
  {
    var s := ExecuteSpec(0, stat, rp);
    var work := if stat.Some? && Dispatched(stat.value) then [StatementCall(rp.begun, stat.value)] else [];
    var closing := if s.result.Err? then AbortCall(rp.begun) else CommitCall(rp.begun);
    assert s.calls == [BeginCall(false)] + (work + [closing]);
    assert OpenCount([closing]) == Delta(closing) by {
      assert [closing][1..] == [];
    }
    if |work| == 1 {
      assert (work + [closing])[1..] == [closing];
      assert Delta(work[0]) == 0;
    } else {
      assert work + [closing] == [closing];
    }
  }

  /** The calls and the id after a session of statements, each with its replies. */
  datatype Trace = Trace(xid: int, calls: seq<Call>)

  function Session(xid: int, stats: seq<Option<Statement>>, rps: seq<Replies>): Trace
    requires |stats| == |rps|
    decreases |stats|
  {
    if |stats| == 0 then Trace(xid, [])
    else
      var s := ExecuteSpec(xid, stats[0], rps[0]);
      var rest := Session(s.xid, stats[1..], rps[1..]);
      Trace(rest.xid, s.calls + rest.calls)
  }

  /**
   * A session started outside a transaction leaves as many transactions
   * open as the connection is inside at its end, and `close` then leaves
   * none open: every transaction the executor began is committed or
   * aborted exactly once.
   */
  lemma {:induction false} SessionBalances(xid: int, stats: seq<Option<Statement>>, rps: seq<Replies>)
    requires |stats| == |rps|
    requires forall k :: 0 <= k < |rps| ==> rps[k].begun != 0 && rps[k].commitReply.Ok?
    ensures var t := Session(xid, stats, rps);
      && OpenCount(t.calls) == Inside(t.xid) - Inside(xid)
      && OpenCount(t.calls + CloseCalls(t.xid)) == -Inside(xid)
    decreases |stats|
  {
    var t := Session(xid, stats, rps);
    var x, cs := t.xid, t.calls;
    if |stats| > 0 {
      var s := ExecuteSpec(xid, stats[0], rps[0]);
      ExecuteBalances(xid, stats[0], rps[0]);
      SessionBalances(s.xid, stats[1..], rps[1..]);
      OpenCountAppend(s.calls, Session(s.xid, stats[1..], rps[1..]).calls);
    } else {
      assert cs == [];
    }
    OpenCountAppend(cs, CloseCalls(x));
    if x != 0 {
      assert [AbortCall(x)][1..] == [];
    }
  }

  /**
   * Outside a transaction any statement other than `begin`, `commit` and
   * `abort` runs in a temporary transaction with its own id: the calls are
   * the begin, at most the one call for the statement, and then an abort
   * exactly when that call threw, a commit otherwise; the connection is
   * back outside unless that commit threw.
   */
  lemma {:induction false} TemporaryTransaction(stat: Option<Statement>, rp: Replies)
    requires !(stat.Some? && Control(stat.value)) && rp.begun != 0
    ensures var s := ExecuteSpec(0, stat, rp);
      var failed := stat.Some? && Dispatched(stat.value) && rp.reply.Err?;
      && |s.calls| >= 2 && s.calls[0] == BeginCall(false)
      && s.calls[|s.calls| - 1] == (if failed then AbortCall(rp.begun) else CommitCall(rp.begun))
      && (forall k :: 0 < k < |s.calls| - 1 ==> stat.Some? && s.calls[k] == StatementCall(rp.begun, stat.value))
      && (s.xid == 0 <==> failed || rp.commitReply.Ok?)
      && (failed ==> s.result == Err(rp.reply.error))
  {
  }

  /** A statement that does not parse still begins and commits a temporary transaction, and returns null. */
  lemma {:induction false} MalformedStatement(toks: Tokens, rp: Replies)
    requires ParseStat(toks).None? && rp.commitReply.Ok?
    ensures ExecuteSpec(0, ParseStat(toks), rp) == Step(0, [BeginCall(false), CommitCall(rp.begun)], Ok(None))
  {
  }

  /**
   * Inside a transaction a statement other than `begin`, `commit` and
   * `abort` runs in it: the id is kept, and nothing is begun, committed or
   * aborted.
   */
  lemma {:induction false} InsideTransaction(xid: int, stat: Option<Statement>, rp: Replies)
    requires xid != 0 && !(stat.Some? && Control(stat.value))
    ensures var s := ExecuteSpec(xid, stat, rp);
      && s.xid == xid
      && (forall k :: 0 <= k < |s.calls| ==> stat.Some? && s.calls[k] == StatementCall(xid, stat.value))
      && OpenCount(s.calls) == 0
  {
    var s := ExecuteSpec(xid, stat, rp);
    if |s.calls| == 1 {
      assert s.calls[1..] == [];
    }
  }

  /**
   * `begin` is refused inside a transaction and `commit`/`abort` outside
   * one, with no call made; otherwise `begin` takes the new id and
   * `commit`/`abort` end the transaction the connection is in.
   */
  lemma {:induction false} ControlStatements(xid: int, s: Statement, rp: Replies)
    requires Control(s)
    ensures var st := ExecuteSpec(xid, Some(s), rp);
      && (s.Begin? ==> (xid != 0 <==> st.result == Err(NestedTransaction)))
      && (!s.Begin? && xid == 0 ==> st.result == Err(NoTransaction))
      && (st.result.Err? && (s.Begin? || xid == 0) ==> st.xid == xid && st.calls == [])
      && (s.Begin? && xid == 0 ==> st.xid == rp.begun && st.calls == [BeginCall(s.isRepeatableRead)])
      && (s.Commit? && xid != 0 ==> st.calls == [CommitCall(xid)] && (st.xid == 0 <==> rp.commitReply.Ok?))
      && (s.Abort? && xid != 0 ==> st.calls == [AbortCall(xid)] && st.xid == 0)
  {
  }
}
