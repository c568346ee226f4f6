/**
 * The lock table of the version layer: which transaction holds which
 * entry, who waits for what, and deadlock detection on the wait-for graph.
 *
 * A transaction waits for at most one entry (`waitU`) and an entry has at
 * most one holder (`u2x`), so the wait-for graph has at most one edge out
 * of each transaction: from `x` to the holder of the entry `x` waits for.
 * A blocked caller's lock handle is represented only by the presence of
 * its id in `waitLock`.
 */
module LockTable {
  import opened Wrappers

  // ---------------------------------------------------------------
  // The wait-for graph

  datatype Hop = Stop | Dangling | Next(to: int)

  datatype Graph = Graph(waitU: map<int, int>, u2x: map<int, int>) {
    /**
     * One edge: none when `x` waits for nothing, and a dangling one when
     * the entry it waits for has no holder (the lookup yields null).
     */
    function Step(x: int): Hop
    {
      if x !in waitU then Stop else if waitU[x] !in u2x then Dangling else Next(u2x[waitU[x]])
    }

    /** Where `n` edges from `x` lead, if all of them exist. */
    function Reach(x: int, n: nat): Option<int>
      decreases n
    {
      if n == 0 then Some(x)
      else match Step(x)
        case Next(y) => Reach(y, n - 1)
        case _ => None
    }

    /** The walk from `x` comes back to a transaction it passed: a deadlock. */
    ghost predicate Revisits(x: int)
    {
      exists n: nat, m: nat :: CycleAt(x, n, m)
    }

    /** After `n` edges the walk from `x` is back where it was `m` edges later. */
    ghost predicate CycleAt(x: int, n: nat, m: nat)
    {
      m >= 1 && Reach(x, n).Some? && Reach(x, n + m) == Reach(x, n)
    }

    /** The walk from `x` reaches, after `n` edges, a transaction that waits for nothing. */
    ghost predicate EndsAt(x: int, n: nat)
    {
      Reach(x, n).Some? && Step(Reach(x, n).value) == Stop
    }

    ghost predicate Ends(x: int)
    {
      exists n: nat :: EndsAt(x, n)
    }

    /** The walk from `x` reaches, after `n` edges, a waiter whose entry has no holder. */
    ghost predicate BreaksAt(x: int, n: nat)
    {
      Reach(x, n).Some? && Step(Reach(x, n).value) == Dangling
    }

    ghost predicate Breaks(x: int)
    {
      exists n: nat :: BreaksAt(x, n)
    }
  }

  lemma {:induction false} ReachSnoc(g: Graph, x: int, n: nat)
    ensures g.Reach(x, n + 1) ==
      if g.Reach(x, n).Some? && g.Step(g.Reach(x, n).value).Next? then Some(g.Step(g.Reach(x, n).value).to) else None
    decreases n
  {
    if n > 0 && g.Step(x).Next? {
      ReachSnoc(g, g.Step(x).to, n - 1);
    }
  }

  lemma {:induction false} ReachPrefix(g: Graph, x: int, n: nat, k: nat)
    requires g.Reach(x, n).Some? && k <= n
    ensures g.Reach(x, k).Some?
    decreases n
  {
    if k > 0 {
      ReachPrefix(g, g.Step(x).to, n - 1, k - 1);
    }
  }

  /** Past a transaction with no outgoing edge the walk goes nowhere. */
  lemma {:induction false} ReachPastStuck(g: Graph, x: int, n: nat, k: nat)
    requires g.Reach(x, n).Some? && !g.Step(g.Reach(x, n).value).Next?
    ensures g.Reach(x, n + 1 + k) == None
    decreases n
  {
    if n > 0 {
      ReachPastStuck(g, g.Step(x).to, n - 1, k);
    }
  }

  /** Once the walk comes back to a transaction it repeats itself. */
  lemma {:induction false} ReachPeriodic(g: Graph, x: int, a: nat, m: nat, t: nat)
    requires g.Reach(x, a).Some? && g.Reach(x, a + m) == g.Reach(x, a)
    ensures g.Reach(x, a + m + t) == g.Reach(x, a + t)
    decreases t
  {
    if t > 0 {
      ReachPeriodic(g, x, a, m, t - 1);
      ReachSnoc(g, x, a + m + t - 1);
      ReachSnoc(g, x, a + t - 1);
    }
  }

  /**
   * A walk that stops, or breaks on a dangling edge, has no cycle: the
   * three outcomes of a walk exclude one another.
   */
  lemma {:induction false} StuckNotRevisits(g: Graph, x: int, n: nat)
    requires g.Reach(x, n).Some? && !g.Step(g.Reach(x, n).value).Next?
    ensures !g.Revisits(x)
  {
    if g.Revisits(x) {
      var a: nat, m: nat :| g.CycleAt(x, a, m);
      if a + m > n {
        ReachPastStuck(g, x, n, a + m - n - 1);
      } else {
        var t := n + 1 - a - m;
        ReachPeriodic(g, x, a, m, t);
        ReachPastStuck(g, x, n, 0);
        ReachPrefix(g, x, n, a + t);
      }
    }
  }

  lemma {:induction false} EndsNotBreaks(g: Graph, x: int, n: nat, k: nat)
    requires g.EndsAt(x, n)
    ensures !g.BreaksAt(x, k)
  {
    if g.BreaksAt(x, k) {
      if n < k {
        ReachPastStuck(g, x, n, k - n - 1);
      } else if k < n {
        ReachPastStuck(g, x, k, n - k - 1);
      }
    }
  }

  /** A transaction whose walk stops is in no deadlock and reaches no dangling edge. */
  lemma {:induction false} EndsExclusive(g: Graph, x: int)
    requires g.Ends(x)
    ensures !g.Revisits(x) && !g.Breaks(x)
  {
    var n: nat :| g.EndsAt(x, n);
    StuckNotRevisits(g, x, n);
    if g.Breaks(x) {
      var k: nat :| g.BreaksAt(x, k);
      EndsNotBreaks(g, x, n, k);
    }
  }

  /** `stamps` gives the current round's stamp to the transaction `o` names. */
  predicate InRound(stamps: map<int, int>, stamp: int, o: Option<int>)
  {
    o.Some? && o.value in stamps && stamps[o.value] == stamp
  }

  /** The walk from `x` continues as the walk from its successor `y`. */
  lemma {:induction false} ReachStep(g: Graph, x: int, y: int, n: nat)
    requires g.Step(x) == Next(y)
    ensures g.Reach(x, n + 1) == g.Reach(y, n)
  {
  }

  lemma {:induction false} EndsStep(g: Graph, x: int, y: int)
    requires g.Step(x) == Next(y) && g.Ends(y)
    ensures g.Ends(x)
  {
    var n: nat :| g.EndsAt(y, n);
    ReachStep(g, x, y, n);
    assert g.EndsAt(x, n + 1);
  }

  lemma {:induction false} BreaksStep(g: Graph, x: int, y: int)
    requires g.Step(x) == Next(y) && g.Breaks(y)
    ensures g.Breaks(x)
  {
    var n: nat :| g.BreaksAt(y, n);
    ReachStep(g, x, y, n);
    assert g.BreaksAt(x, n + 1);
  }

  /**
   * Stamping `x` and stepping to `y`: if the walk from `y` cycles or meets
   * this round's stamps (now including `x`), then the walk from `x` cycles
   * or meets the stamps it met before `x` was stamped.
   */
  lemma {:induction false} OneMoreEdge(g: Graph, x: int, y: int, before: map<int, int>, stamp: int)
    requires g.Step(x) == Next(y)
    requires g.Revisits(y) || exists n: nat :: InRound(before[x := stamp], stamp, g.Reach(y, n))
    ensures g.Revisits(x) || exists n: nat :: InRound(before, stamp, g.Reach(x, n))
  {
    if g.Revisits(y) {
      var n: nat, m: nat :| g.CycleAt(y, n, m);
      ReachStep(g, x, y, n);
      ReachStep(g, x, y, n + m);
      assert g.CycleAt(x, n + 1, m);
    } else {
      var n: nat :| InRound(before[x := stamp], stamp, g.Reach(y, n));
      ReachStep(g, x, y, n);
      if g.Reach(y, n).value == x {
        assert g.CycleAt(x, 0, n + 1);
      } else {
        assert InRound(before, stamp, g.Reach(x, n + 1));
      }
    }
  }

  lemma {:induction false} FewerLeft(univ: set<int>, done: set<int>, x: int)
    requires x in univ && x !in done
    ensures |univ - (done + {x})| < |univ - done|
  {
    assert univ - done == (univ - (done + {x})) + {x};
  }

  // ---------------------------------------------------------------
  // Lists kept in maps

  /** `putIntoList`. */
  function PutIntoList(m: map<int, seq<int>>, key: int, value: int): (r: map<int, seq<int>>)
    ensures key in r && r[key] == (if key in m then m[key] else []) + [value]
    ensures forall k :: k != key ==> (k in r <==> k in m)
  {
    m[key := (if key in m then m[key] else []) + [value]]
  }

  /** The position of the first occurrence of `v`, or |s|. */
  function IndexOf(s: seq<int>, v: int): (i: nat)
    ensures i <= |s| && v !in s[..i]
    ensures i < |s| ==> s[i] == v
  {
    if s == [] then 0
    else if s[0] == v then 0
    else
      var i := 1 + IndexOf(s[1..], v);
      assert s[..i] == [s[0]] + s[1..][..i - 1];
      i
  }

  /** `List.remove(Object)`: the first occurrence of `v` is taken out. */
  function RemoveFirst(s: seq<int>, v: int): (r: seq<int>)
    ensures v !in s ==> r == s
    ensures v in s ==> var i := IndexOf(s, v); s[i] == v && v !in s[..i] && r == s[..i] + s[i + 1..]
  {
    var i := IndexOf(s, v);
    if i < |s| then s[..i] + s[i + 1..]
    else
      assert s[..i] == s;
      s
  }

  /** `removeFromList`: nothing happens when there is no list under `key`. */
  function RemoveFromList(m: map<int, seq<int>>, key: int, value: int): (r: map<int, seq<int>>)
    ensures key !in m ==> r == m
    ensures key in m ==> r == m[key := RemoveFirst(m[key], value)]
  {
    if key !in m then m else m[key := RemoveFirst(m[key], value)]
  }

  /** `isInList`. */
  predicate InList(m: map<int, seq<int>>, key: int, value: int)
  {
    key in m && value in m[key]
  }

  // ---------------------------------------------------------------
  // Handing an entry over

  /** The parts of the table that `selectNewXID` changes. */
  datatype Grants = Grants(u2x: map<int, int>, wait: map<int, seq<int>>, waitLock: set<int>, waitU: map<int, int>)

  /** The position of the first queued transaction that still waits, or |queue|. */
  function FirstWaiting(queue: seq<int>, waitLock: set<int>): (i: nat)
    ensures i <= |queue|
    ensures forall j :: 0 <= j < i ==> queue[j] !in waitLock
    ensures i < |queue| ==> queue[i] in waitLock
  {
    if queue == [] then 0
    else if queue[0] in waitLock then 0
    else 1 + FirstWaiting(queue[1..], waitLock)
  }

  /**
   * `selectNewXID` on values: `uid` loses its holder; the queue under `uid`
   * is consumed up to the first transaction still waiting, which becomes
   * the holder and stops waiting. The queue's remainder stays filed; an
   * emptied queue is dropped, but one that was empty to begin with is kept.
   */
  function Select(g: Grants, uid: int): Grants
  {
    var u2x := g.u2x - {uid};
    if uid !in g.wait then g.(u2x := u2x)
    else
      var queue := g.wait[uid];
      var i := FirstWaiting(queue, g.waitLock);
      var rest := if i < |queue| then queue[i + 1..] else [];
      var wait := if queue == [] then g.wait else if rest == [] then g.wait - {uid} else g.wait[uid := rest];
      if i < |queue| then Grants(u2x[uid := queue[i]], wait, g.waitLock - {queue[i]}, g.waitU - {queue[i]})
      else Grants(u2x, wait, g.waitLock, g.waitU)
  }

  /** The queue under `uid` once its first transactions are consumed: dropped when nothing is left. */
  function QueueLeft(wait: map<int, seq<int>>, uid: int, rest: seq<int>): map<int, seq<int>>
  {
    if rest == [] then wait - {uid} else wait[uid := rest]
  }

  /**
   * Taking one more transaction off the queue under `uid`, and dropping the
   * queue once it is empty, leaves the queue's remainder filed.
   */
  lemma {:induction false} QueueUpdate(w0: map<int, seq<int>>, w: map<int, seq<int>>, uid: int, prev: seq<int>, rest: seq<int>,
                                       first: bool)
    requires w == if first then w0 else QueueLeft(w0, uid, prev)
    ensures (if rest == [] then w[uid := rest] - {uid} else w[uid := rest]) == QueueLeft(w0, uid, rest)
  {
    var lhs := if rest == [] then w[uid := rest] - {uid} else w[uid := rest];
    assert lhs.Keys == QueueLeft(w0, uid, rest).Keys;
    forall k | k in lhs
      ensures lhs[k] == QueueLeft(w0, uid, rest)[k]
    {
    }
  }

  /** `Select` when the `k`-th queued transaction is the first one still waiting. */
  lemma {:induction false} SelectTakes(g: Grants, uid: int, k: nat)
    requires uid in g.wait && k < |g.wait[uid]|
    requires forall j :: 0 <= j < k ==> g.wait[uid][j] !in g.waitLock
    requires g.wait[uid][k] in g.waitLock
    ensures var x := g.wait[uid][k];
      Select(g, uid) == Grants((g.u2x - {uid})[uid := x], QueueLeft(g.wait, uid, g.wait[uid][k + 1..]),
                               g.waitLock - {x}, g.waitU - {x})
  {
    var queue := g.wait[uid];
    var i := FirstWaiting(queue, g.waitLock);
    assert i == k;
  }

  /** `Select` when no queued transaction still waits. */
  lemma {:induction false} SelectNobody(g: Grants, uid: int)
    requires uid in g.wait
    requires forall j :: 0 <= j < |g.wait[uid]| ==> g.wait[uid][j] !in g.waitLock
    ensures Select(g, uid) == Grants(g.u2x - {uid}, if g.wait[uid] == [] then g.wait else g.wait - {uid},
                                     g.waitLock, g.waitU)
  {
    var queue := g.wait[uid];
    var i := FirstWaiting(queue, g.waitLock);
    assert i == |queue|;
  }

  /**
   * The loop of `selectNewXID` on the queue under `uid`: transactions are
   * taken off its front, the queue being dropped once it is empty, until
   * one still waits for a lock (`found`, and `xid` is the `k`-th queued)
   * or the queue runs out.
   */
  method TakeWaiting(w0: map<int, seq<int>>, uid: int, waiting: set<int>)
    returns (w: map<int, seq<int>>, found: bool, xid: int, ghost k: nat)
    requires uid in w0
    ensures k <= |w0[uid]| && forall j :: 0 <= j < k ==> w0[uid][j] !in waiting
    ensures found ==> k < |w0[uid]| && xid == w0[uid][k] && xid in waiting && w == QueueLeft(w0, uid, w0[uid][k + 1..])
    ensures !found ==> k == |w0[uid]| && xid == 0 && w == if w0[uid] == [] then w0 else w0 - {uid}
  {
    var xidList := w0[uid];
    ghost var queue := xidList;
    w := w0;
    k := 0;
    found := false;
    xid := 0;
    while |xidList| > 0
      invariant 0 <= k <= |queue| && xidList == queue[k..]
      invariant forall j :: 0 <= j < k ==> queue[j] !in waiting
      invariant w == if k == 0 then w0 else QueueLeft(w0, uid, xidList)
      decreases |xidList|
    {
      ghost var before := w;
      ghost var prev := xidList;
      var next := xidList[0];
      xidList := xidList[1..];
      w := w[uid := xidList];
      if |xidList| == 0 {
        w := w - {uid};
      }
      QueueUpdate(w0, before, uid, prev, xidList, k == 0);
      if next in waiting {
        found := true;
        xid := next;
        return;
      }
      k := k + 1;
    }
    assert |queue[k..]| == 0;
  }

  /**
   * First come, first served: the new holder is the earliest queued
   * transaction that still waits; the ones queued before it are dropped
   * from the queue, and if nobody waits the entry is left free.
   */
  lemma {:induction false} SelectFifo(g: Grants, uid: int)
    requires uid in g.wait
    ensures var queue := g.wait[uid];
      var h := Select(g, uid);
      if exists i :: 0 <= i < |queue| && queue[i] in g.waitLock then
        exists i :: 0 <= i < |queue| && queue[i] in g.waitLock
          && (forall j :: 0 <= j < i ==> queue[j] !in g.waitLock)
          && h.u2x == (g.u2x - {uid})[uid := queue[i]]
          && h.waitLock == g.waitLock - {queue[i]} && h.waitU == g.waitU - {queue[i]}
          && (uid in h.wait ==> h.wait[uid] == queue[i + 1..])
      else
        h.u2x == g.u2x - {uid} && h.waitLock == g.waitLock && h.waitU == g.waitU
          && (queue != [] ==> uid !in h.wait)
  {
    var queue := g.wait[uid];
    var i := FirstWaiting(queue, g.waitLock);
    if i < |queue| {
      assert queue[i] in g.waitLock;
    }
  }

  /** Every held entry is listed under its holder. */
  ghost predicate HoldersRecorded(x2u: map<int, seq<int>>, u2x: map<int, int>)
  {
    forall u :: u in u2x ==> InList(x2u, u2x[u], u)
  }

  /**
   * `selectNewXID` with the entry also listed under its new holder, as
   * `add` lists an entry it grants at once.
   */
  function SelectRecorded(x2u: map<int, seq<int>>, g: Grants, uid: int): (r: (map<int, seq<int>>, Grants))
    ensures r.1 == Select(g, uid)
    ensures uid in r.1.u2x ==> r.0 == PutIntoList(x2u, r.1.u2x[uid], uid)
    ensures uid !in r.1.u2x ==> r.0 == x2u
  {
    var h := Select(g, uid);
    if uid in h.u2x then (PutIntoList(x2u, h.u2x[uid], uid), h) else (x2u, h)
  }

  /** What `remove(xid)` has left to do: the entries still listed under `xid`, and one more while it waits. */
  function Pending(x2u: map<int, seq<int>>, g: Grants, xid: int): nat
  {
    (if xid in x2u then |x2u[xid]| else 0) + (if xid in g.waitLock then 1 else 0)
  }

  /**
   * Handing an entry over never adds to what `remove(xid)` has left: an
   * entry can be listed under `xid` only by taking `xid` out of the waiters.
   */
  lemma {:induction false} SelectRecordedPending(x2u: map<int, seq<int>>, g: Grants, uid: int, xid: int)
    ensures var r := SelectRecorded(x2u, g, uid);
      && Pending(r.0, r.1, xid) <= Pending(x2u, g, xid)
      && (xid in x2u ==> xid in r.0)
  {
    var h := Select(g, uid);
    if uid in g.wait {
      var queue := g.wait[uid];
      var i := FirstWaiting(queue, g.waitLock);
      if i < |queue| {
        assert h.u2x[uid] == queue[i] && queue[i] in g.waitLock && h.waitLock == g.waitLock - {queue[i]};
      }
    }
  }

  /**
   * `remove`'s loop, corrected: the entries listed under `xid` are handed
   * over one at a time from the front of its list, each new holder
   * getting the entry listed under it. An entry handed to `xid` itself
   * joins the list it is working through.
   */
  function ReleaseHeld(x2u: map<int, seq<int>>, g: Grants, xid: int): (map<int, seq<int>>, Grants)
    decreases Pending(x2u, g, xid)
  {
    if xid !in x2u || x2u[xid] == [] then (x2u, g)
    else
      var rest := x2u[xid := x2u[xid][1..]];
      var r := SelectRecorded(rest, g, x2u[xid][0]);
      SelectRecordedPending(rest, g, x2u[xid][0], xid);
      ReleaseHeld(r.0, r.1, xid)
  }

  /** The table once `remove(xid)` has run: `xid` is unlisted and no longer waits. */
  function Removed(x2u: map<int, seq<int>>, g: Grants, xid: int): (map<int, seq<int>>, Grants)
  {
    var r := ReleaseHeld(x2u, g, xid);
    (r.0 - {xid}, r.1.(waitLock := r.1.waitLock - {xid}, waitU := r.1.waitU - {xid}))
  }

  /**
   * With every held entry listed under its holder, handing over the
   * entries of `xid` keeps them all listed and leaves `xid` with nothing.
   */
  lemma {:induction false} ReleaseHeldKeepsRecord(x2u: map<int, seq<int>>, g: Grants, xid: int)
    requires HoldersRecorded(x2u, g.u2x)
    ensures var r := ReleaseHeld(x2u, g, xid);
      && HoldersRecorded(r.0, r.1.u2x)
      && (xid in r.0 ==> r.0[xid] == [])
    decreases Pending(x2u, g, xid)
  {
    if xid in x2u && x2u[xid] != [] {
      var uid := x2u[xid][0];
      var rest := x2u[xid := x2u[xid][1..]];
      forall u | u in g.u2x - {uid}
        ensures InList(rest, (g.u2x - {uid})[u], u)
      {
        assert InList(x2u, g.u2x[u], u);
        if g.u2x[u] == xid {
          assert x2u[xid] == [uid] + x2u[xid][1..];
        }
      }
      SelectRecordedKeepsRecord(rest, g, uid);
      SelectRecordedPending(rest, g, uid, xid);
      var r := SelectRecorded(rest, g, uid);
      ReleaseHeldKeepsRecord(r.0, r.1, xid);
    }
  }

  /**
   * The corrected `remove` lets go of everything: when every held entry
   * was listed under its holder, afterwards `xid` holds no entry.
   */
  lemma {:induction false} RemovedHoldsNothing(x2u: map<int, seq<int>>, g: Grants, xid: int)
    requires HoldersRecorded(x2u, g.u2x)
    ensures var r := Removed(x2u, g, xid);
      forall u :: u in r.1.u2x ==> r.1.u2x[u] != xid
  {
    ReleaseHeldKeepsRecord(x2u, g, xid);
  }

  /** `remove`'s loop as written on values: each held entry handed over in list order. */
  function ReleaseAll(g: Grants, uids: seq<int>): Grants
    decreases |uids|
  {
    if uids == [] then g else ReleaseAll(Select(g, uids[0]), uids[1..])
  }

  /** The table once `remove(xid)` as written has run: `xid` is unlisted and no longer waits. */
  function RemovedAsWritten(x2u: map<int, seq<int>>, g: Grants, xid: int): (map<int, seq<int>>, Grants)
  {
    var h := ReleaseAll(g, if xid in x2u then x2u[xid] else []);
    (x2u - {xid}, h.(waitLock := h.waitLock - {xid}, waitU := h.waitU - {xid}))
  }

  /** Releasing entries leaves the holder of every other entry in place. */
  lemma {:induction false} ReleaseKeepsOthers(g: Grants, uids: seq<int>, uid: int)
    requires uid !in uids
    ensures (uid in ReleaseAll(g, uids).u2x) == (uid in g.u2x)
    ensures uid in g.u2x ==> ReleaseAll(g, uids).u2x[uid] == g.u2x[uid]
    decreases |uids|
  {
    if uids != [] {
      assert uid !in uids[1..];
      ReleaseKeepsOthers(Select(g, uids[0]), uids[1..], uid);
    }
  }

  // ---------------------------------------------------------------
  // The table

  /** `LockTable`. */
  /**
   * What `add` leaves when the entry is held by another transaction:
   * the holders are unchanged; without a deadlock `xid` waits (true), with
   * one the wait is withdrawn (DeadLock), and a dangling edge faults.
   */
  ghost predicate WaitOutcome(g0: Grants, x2u0: map<int, seq<int>>, g1: Grants, x2u1: map<int, seq<int>>,
                              xid: int, uid: int, order: seq<int>, r: Result<bool>)
  {
    var g := Graph(g0.waitU[xid := uid], g0.u2x);
    && x2u1 == x2u0 && g1.u2x == g0.u2x && r != Ok(false)
    && (r == Ok(true) ==>
          && (forall i :: 0 <= i < |order| ==> g.Ends(order[i]))
          && g1.waitU == g0.waitU[xid := uid] && g1.wait == PutIntoList(g0.wait, xid, uid)
          && g1.waitLock == g0.waitLock + {xid})
    && (r.Err? && r.error == DeadLock ==>
          && (exists i :: 0 <= i < |order| && g.Revisits(order[i]))
          && g1.waitU == g0.waitU - {xid} && g1.wait == RemoveFromList(PutIntoList(g0.wait, xid, uid), uid, xid)
          && g1.waitLock == g0.waitLock)
    && (r.Err? ==> r.error == DeadLock || r.error == NullPointer)
    && (r.Err? && r.error == NullPointer ==>
          && (exists i :: 0 <= i < |order| && g.Breaks(order[i]))
          && g1.waitU == g0.waitU[xid := uid] && g1.wait == PutIntoList(g0.wait, xid, uid)
          && g1.waitLock == g0.waitLock)
  }

  /** The outcome of a wait whose search found every walk stopping. */
  lemma {:induction false} WaitEnds(g0: Grants, x2u: map<int, seq<int>>, xid: int, uid: int, order: seq<int>)
    requires forall i :: 0 <= i < |order| ==> Graph(g0.waitU[xid := uid], g0.u2x).Ends(order[i])
    ensures WaitOutcome(g0, x2u, Grants(g0.u2x, PutIntoList(g0.wait, xid, uid), g0.waitLock + {xid}, g0.waitU[xid := uid]),
                        x2u, xid, uid, order, Ok(true))
  {
  }

  /** The outcome of a wait whose search came back on itself. */
  lemma {:induction false} WaitDeadLock(g0: Grants, x2u: map<int, seq<int>>, xid: int, uid: int, order: seq<int>)
    requires exists i :: 0 <= i < |order| && Graph(g0.waitU[xid := uid], g0.u2x).Revisits(order[i])
    ensures WaitOutcome(g0, x2u, Grants(g0.u2x, RemoveFromList(PutIntoList(g0.wait, xid, uid), uid, xid), g0.waitLock,
                                        g0.waitU[xid := uid] - {xid}),
                        x2u, xid, uid, order, Err(DeadLock))
  {
    assert g0.waitU[xid := uid] - {xid} == g0.waitU - {xid};
  }

  /** The outcome of a wait whose search ran into a missing holder. */
  lemma {:induction false} WaitBreaks(g0: Grants, x2u: map<int, seq<int>>, xid: int, uid: int, order: seq<int>)
    requires exists i :: 0 <= i < |order| && Graph(g0.waitU[xid := uid], g0.u2x).Breaks(order[i])
    ensures WaitOutcome(g0, x2u, Grants(g0.u2x, PutIntoList(g0.wait, xid, uid), g0.waitLock, g0.waitU[xid := uid]),
                        x2u, xid, uid, order, Err(NullPointer))
  {
  }

  class LockTableImpl {
    var x2u: map<int, seq<int>>
    var u2x: map<int, int>
    var wait: map<int, seq<int>>
    var waitLock: set<int>
    var waitU: map<int, int>
    var xidStamp: map<int, int>
    var stamp: int

    constructor ()
      ensures x2u == map[] && u2x == map[] && wait == map[] && waitLock == {} && waitU == map[]
    {
      x2u := map[];
      u2x := map[];
      wait := map[];
      waitLock := {};
      waitU := map[];
      xidStamp := map[];
      stamp := 0;
    }

    function State(): Grants
      reads this
    {
      Grants(u2x, wait, waitLock, waitU)
    }

    /**
     * `dfs`: follows the wait-for edges from `x`, stamping what it passes
     * with the current round's stamp. It answers true on meeting a stamp of
     * this round, false on meeting an earlier round's stamp or a transaction
     * that waits for nothing, and faults on a dangling edge.
     */
    method Dfs(x: int, ghost univ: set<int>) returns (r: Result<bool>)
      requires x in univ && forall u :: u in u2x ==> u2x[u] in univ
      requires forall k :: k in xidStamp ==> xidStamp[k] <= stamp
      requires forall k :: k in xidStamp && xidStamp[k] < stamp ==> Graph(waitU, u2x).Ends(k)
      modifies this`xidStamp
      decreases |univ - xidStamp.Keys|
      ensures x in xidStamp
      ensures forall k :: k in old(xidStamp) ==> k in xidStamp
      ensures forall k :: k in xidStamp ==> (k in old(xidStamp) && xidStamp[k] == old(xidStamp)[k]) || xidStamp[k] == stamp
      ensures r == Ok(true) ==>
        Graph(waitU, u2x).Revisits(x) || exists n: nat :: InRound(old(xidStamp), stamp, Graph(waitU, u2x).Reach(x, n))
      ensures r == Ok(false) ==> Graph(waitU, u2x).Ends(x)
      ensures r == Ok(false) ==> forall k :: k in xidStamp && xidStamp[k] == stamp && !(k in old(xidStamp) && old(xidStamp)[k] == stamp) ==> Graph(waitU, u2x).Ends(k)
      ensures r.Err? ==> r.error == NullPointer && Graph(waitU, u2x).Breaks(x)
    {
      ghost var g := Graph(waitU, u2x);
      if x in xidStamp && xidStamp[x] == stamp {
        assert InRound(old(xidStamp), stamp, g.Reach(x, 0));
        return Ok(true);
      }
      if x in xidStamp && xidStamp[x] < stamp {
        return Ok(false);
      }
      ghost var before := xidStamp;
      xidStamp := xidStamp[x := stamp];
      if x !in waitU {
        assert g.EndsAt(x, 0);
        return Ok(false);
      }
      var uid := waitU[x];
      if uid !in u2x {
        assert g.BreaksAt(x, 0);
        return Err(NullPointer);
      }
      var y := u2x[uid];
      FewerLeft(univ, before.Keys, x);
      assert xidStamp.Keys == before.Keys + {x};
      r := Dfs(y, univ);
      if r == Ok(true) {
        OneMoreEdge(g, x, y, before, stamp);
      } else if r == Ok(false) {
        EndsStep(g, x, y);
      } else if r.Err? {
        BreaksStep(g, x, y);
      }
    }

    /**
     * `hasDeadLock`: a round of `dfs` from every holder not yet stamped,
     * taken in `order`, the iteration order of `x2u`'s keys. True exactly
     * when some holder's walk comes back on itself; false when every
     * holder's walk stops at a transaction that waits for nothing.
     */
    method HasDeadLock(order: seq<int>) returns (r: Result<bool>)
      modifies this`xidStamp, this`stamp
      ensures r == Ok(true) ==> exists i :: 0 <= i < |order| && Graph(waitU, u2x).Revisits(order[i])
      ensures r == Ok(false) ==> forall i :: 0 <= i < |order| ==> Graph(waitU, u2x).Ends(order[i])
      ensures r.Err? ==> r.error == NullPointer && exists i :: 0 <= i < |order| && Graph(waitU, u2x).Breaks(order[i])
      ensures (forall i :: 0 <= i < |order| ==> Graph(waitU, u2x).Ends(order[i])) ==> r == Ok(false)
    {
      xidStamp := map[];
      stamp := 1;
      ghost var holders := set u | u in u2x :: u2x[u];
      var i := 0;
      while i < |order|
        invariant 0 <= i <= |order| && stamp >= 1
        invariant forall k :: k in xidStamp ==> 0 < xidStamp[k] <= stamp
        invariant forall k :: k in xidStamp ==> Graph(waitU, u2x).Ends(k)
        invariant forall j :: 0 <= j < i ==> order[j] in xidStamp
      {
        var xid := order[i];
        if xid in xidStamp && xidStamp[xid] > 0 {
          i := i + 1;
          continue;
        }
        stamp := stamp + 1;
        ghost var before := xidStamp;
        assert forall k :: k in before ==> before[k] < stamp;
        var d := Dfs(xid, holders + {xid});
        assert forall k :: k in before ==> k in xidStamp;
        if Graph(waitU, u2x).Ends(xid) {
          EndsExclusive(Graph(waitU, u2x), xid);
        }
        if d.Err? {
          return d;
        }
        if d.value {
          return Ok(true);
        }
        i := i + 1;
      }
      r := Ok(false);
    }

    /**
     * `add`: nothing to do when `xid` already holds `uid`; a free entry is
     * granted at once. Otherwise `xid` starts waiting for `uid` and is
     * queued, as written, under its own id `xid` with `uid` as the value
     * (see `LostWakeup`; `QueueWaiter` is the filing the release expects),
     * and the wait-for graph is searched from the holders in `order`. A
     * deadlock withdraws the wait, taking `xid` out of the queue under the
     * key `uid`, where it was never put, and fails; without one the caller
     * must wait (true).
     */
    method Add(xid: int, uid: int, order: seq<int>) returns (r: Result<bool>)
      requires forall k :: k in x2u <==> k in order
      modifies this
      ensures InList(old(x2u), xid, uid) ==>
        r == Ok(false) && State() == old(State()) && x2u == old(x2u)
      ensures !InList(old(x2u), xid, uid) && uid !in old(u2x) ==>
        && r == Ok(false)
        && u2x == old(u2x)[uid := xid] && x2u == PutIntoList(old(x2u), xid, uid)
        && wait == old(wait) && waitLock == old(waitLock) && waitU == old(waitU)
      ensures !InList(old(x2u), xid, uid) && uid in old(u2x) ==> WaitOutcome(old(State()), old(x2u), State(), x2u, xid, uid, order, r)
    {
      if InList(x2u, xid, uid) {
        return Ok(false);
      }
      if uid !in u2x {
        u2x := u2x[uid := xid];
        x2u := PutIntoList(x2u, xid, uid);
        return Ok(false);
      }
      r := Wait(xid, uid, order);
    }

    /**
     * The rest of `add` once the entry is held by another transaction:
     * `xid` waits for `uid`, and a deadlock found by the search withdraws
     * the wait.
     */
    method Wait(xid: int, uid: int, order: seq<int>) returns (r: Result<bool>)
      modifies this
      ensures WaitOutcome(old(State()), old(x2u), State(), x2u, xid, uid, order, r)
    {
      ghost var g0 := State();
      waitU := waitU[xid := uid];
      wait := PutIntoList(wait, xid, uid);
      var dead := HasDeadLock(order);
      if dead.Err? {
        WaitBreaks(g0, x2u, xid, uid, order);
        return Err(dead.error);
      }
      if dead.value {
        waitU := waitU - {xid};
        wait := RemoveFromList(wait, uid, xid);
        WaitDeadLock(g0, x2u, xid, uid, order);
        return Err(DeadLock);
      }
      waitLock := waitLock + {xid};
      WaitEnds(g0, x2u, xid, uid, order);
      r := Ok(true);
    }

    /** `selectNewXID` as written: the new holder is not listed under it; proved against `Select`. */
    method SelectNewXid(uid: int)
      modifies this`u2x, this`wait, this`waitLock, this`waitU
      ensures State() == Select(old(State()), uid)
    {
      ghost var g := State();
      u2x := u2x - {uid};
      if uid !in wait {
        assert Select(g, uid) == g.(u2x := u2x);
        return;
      }
      var w, found, xid, k := TakeWaiting(wait, uid, waitLock);
      wait := w;
      if found {
        SelectTakes(g, uid, k);
        u2x := u2x[uid := xid];
        waitLock := waitLock - {xid};
        waitU := waitU - {xid};
      } else {
        SelectNobody(g, uid);
      }
    }

    /**
     * `remove` as written: every entry listed under `xid` is handed over in
     * list order (`ReleaseAll`), and `xid` leaves the table: it is unlisted
     * and waits for nothing. `ReleaseHeld` and `Removed` are the corrected
     * version.
     */
    method Remove(xid: int)
      modifies this`x2u, this`u2x, this`wait, this`waitLock, this`waitU
      ensures State() == RemovedAsWritten(old(x2u), old(State()), xid).1
      ensures x2u == RemovedAsWritten(old(x2u), old(State()), xid).0
      ensures xid !in x2u && xid !in waitLock && xid !in waitU
    {
      ghost var target := ReleaseAll(State(), if xid in x2u then x2u[xid] else []);
      if xid in x2u {
        var uidList := x2u[xid];
        while |uidList| > 0
          invariant ReleaseAll(State(), uidList) == target
          invariant x2u == old(x2u)[xid := uidList]
          decreases |uidList|
        {
          var uid := uidList[0];
          uidList := uidList[1..];
          x2u := x2u[xid := uidList];
          SelectNewXid(uid);
        }
      }
      waitU := waitU - {xid};
      x2u := x2u - {xid};
      waitLock := waitLock - {xid};
    }
  }

  // ---------------------------------------------------------------
  // How the queue keys and the new holder's record go wrong

  /**
   * As written: a waiter is queued under its own id, while the entry's
   * release looks for a queue under the entry's id. Once the holder
   * releases the entry nobody is given it and the waiter keeps waiting.
   */
  lemma {:induction false} LostWakeup(g: Grants, xid: int, uid: int)
    requires uid !in g.wait && uid != xid && xid in g.waitLock
    ensures var h := Select(g.(wait := PutIntoList(g.wait, xid, uid)), uid);
      uid !in h.u2x && xid in h.waitLock
  {
  }

  /** Queuing the waiter under the entry's id, as the release expects. */
  function QueueWaiter(wait: map<int, seq<int>>, xid: int, uid: int): (r: map<int, seq<int>>)
    ensures uid in r && r[uid] == (if uid in wait then wait[uid] else []) + [xid]
    ensures forall k :: k != uid ==> (k in r <==> k in wait) && (k in wait ==> r[k] == wait[k])
  {
    PutIntoList(wait, uid, xid)
  }

  /** Queued by entry id, the only waiter receives the entry and stops waiting. */
  lemma {:induction false} QueuedWaiterWoken(g: Grants, xid: int, uid: int)
    requires uid !in g.wait && xid in g.waitLock
    ensures var h := Select(g.(wait := QueueWaiter(g.wait, xid, uid)), uid);
      uid in h.u2x && h.u2x[uid] == xid && xid !in h.waitLock && xid !in h.waitU
  {
    var q := QueueWaiter(g.wait, xid, uid)[uid];
    assert q == [xid];
    assert FirstWaiting(q, g.waitLock) == 0;
  }

  /**
   * As written: an entry handed to a waiter is not listed under the new
   * holder, so the holder's later `remove` will not release it.
   */
  lemma {:induction false} HandoverUnrecorded(g: Grants, x2u: map<int, seq<int>>, uid: int)
    requires uid in g.wait && FirstWaiting(g.wait[uid], g.waitLock) < |g.wait[uid]|
    requires !InList(x2u, g.wait[uid][FirstWaiting(g.wait[uid], g.waitLock)], uid)
    ensures !HoldersRecorded(x2u, Select(g, uid).u2x)
    ensures var w := g.wait[uid][FirstWaiting(g.wait[uid], g.waitLock)];
      var l := if w in x2u then x2u[w] else [];
      uid in ReleaseAll(Select(g, uid), l).u2x && ReleaseAll(Select(g, uid), l).u2x[uid] == w
  {
    var w := g.wait[uid][FirstWaiting(g.wait[uid], g.waitLock)];
    var l := if w in x2u then x2u[w] else [];
    ReleaseKeepsOthers(Select(g, uid), l, uid);
  }

  /** Recording the new holder keeps every held entry listed under its holder. */
  lemma {:induction false} SelectRecordedKeepsRecord(x2u: map<int, seq<int>>, g: Grants, uid: int)
    requires HoldersRecorded(x2u, g.u2x - {uid})
    ensures var r := SelectRecorded(x2u, g, uid); HoldersRecorded(r.0, r.1.u2x)
  {
    var r := SelectRecorded(x2u, g, uid);
    forall u | u in r.1.u2x
      ensures InList(r.0, r.1.u2x[u], u)
    {
      if u != uid {
        assert u in g.u2x - {uid};
      }
    }
  }
}
