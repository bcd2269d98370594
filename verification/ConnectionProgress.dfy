/**
 Every call gets its turn and finishes. `Left` counts the steps a system still has to make when nobody
 else calls; each step other than a new call lowers it by exactly one, so a run that stops asking ends,
 and by `NoDeadlock` it ends with every call finished.
 */
module ConnectionProgress {
  import opened Wrappers
  import opened SqliteTx
  import opened ConnectionLock

  /** Steps from `Run(code)` until the chain leaves it again. */
  ghost function Cost<D, M>(code: Code<D, M>, db: D, mem: M): nat
    decreases code, 0
  {
    match code
    case Statement(_) => 1
    case Throw(_) => 1
    case Then(first, second) =>
      var e := Meaning(first, db, mem);
      2 + Cost(first, db, mem) + (if e.ok then Cost(second, e.db, e.mem) else 0)
    case If(test, yes, no) => 1 + (if test(mem) then Cost(yes, db, mem) else Cost(no, db, mem))
    case ForEach(count, each) => 1 + RepeatCost(count(mem), each, db, mem)
    case Catch(attempt, handler) =>
      var e := Meaning(attempt, db, mem);
      2 + Cost(attempt, db, mem) + (if e.ok then 0 else Cost(handler, e.db, e.mem))
    case Transaction(fault, body) => if fault.OpenFails? then 1 else 2 + Cost(body, db, mem)
    case Connection(body) => 2 + Cost(body, db, mem)
  }

  ghost function RepeatCost<D, M>(n: nat, each: Code<D, M>, db: D, mem: M): nat
    decreases each, n + 1
  {
    if n == 0 then 1
    else
      var e := Meaning(each, db, mem);
      1 + Cost(each, db, mem) + (if e.ok then RepeatCost(n - 1, each, e.db, e.mem) else 1)
  }

  /** Steps until the suspended frames are gone, once the current code has ended in `end`. */
  ghost function UnwindCost<D, M>(
      frames: Stack<Frame<D, M>>, savepoints: Stack<Savepoint<D>>, committed: D, end: End<D, M>):
    nat
    decreases frames
  {
    match frames
    case Empty => 0
    case Push(InFirst(second), below) =>
      1 + (if end.ok
           then Cost(second, end.db, end.mem) + UnwindCost(below, savepoints, committed,
             Meaning(second, end.db, end.mem))
           else UnwindCost(below, savepoints, committed, end))
    case Push(InLoop(left, each), below) =>
      if end.ok
      then RepeatCost(left, each, end.db, end.mem) + UnwindCost(below, savepoints, committed,
        Repeat(left, each, end.db, end.mem))
      else 1 + UnwindCost(below, savepoints, committed, end)
    case Push(InCatch(handler), below) =>
      1 + (if end.ok
           then UnwindCost(below, savepoints, committed, end)
           else Cost(handler, end.db, end.mem) + UnwindCost(below, savepoints, committed,
             Meaning(handler, end.db, end.mem)))
    case Push(InSavepoint(_, fault), below) =>
      if savepoints.Empty? then 0
      else 1 + UnwindCost(below, savepoints.below, committed, Settle(fault, savepoints.top.saved, end))
    case Push(InTransaction(fault), below) => 1 + UnwindCost(below, Empty, committed, Settle(fault, committed, end))
    case Push(InConnection, below) => 1 + UnwindCost(below, savepoints, committed, end)
  }

  ghost function ChainLeft<D, M>(conn: Conn<D>, chain: Chain<D, M>): nat {
    var savepoints := if conn.Open? then conn.savepoints else Empty;
    match chain.control
    case Run(code) =>
      Cost(code, conn.View(), chain.mem) +
      UnwindCost(chain.frames, savepoints, conn.committed, Meaning(code, conn.View(), chain.mem))
    case Leave(ok) => UnwindCost(chain.frames, savepoints, conn.committed, End(ok, conn.View(), chain.mem))
  }

  lemma {:induction false} UnwindIgnoresCommitted<D, M>(
      frames: Stack<Frame<D, M>>, a: D, b: D, bound: nat, end: End<D, M>)
    requires Matches(frames, Empty, false, bound)
    ensures UnwindCost(frames, Empty, a, end) == UnwindCost(frames, Empty, b, end)
    decreases frames
  {
    match frames
    case Empty =>
    case Push(InFirst(second), below) =>
      UnwindIgnoresCommitted(below, a, b, bound, if end.ok then Meaning(second, end.db, end.mem) else end);
    case Push(InLoop(left, each), below) =>
      UnwindIgnoresCommitted(below, a, b, bound, if end.ok then Repeat(left, each, end.db, end.mem) else end);
    case Push(InCatch(handler), below) =>
      UnwindIgnoresCommitted(below, a, b, bound, if end.ok then end else Meaning(handler, end.db, end.mem));
    case Push(InConnection, below) => UnwindIgnoresCommitted(below, a, b, bound, end);
    case _ => assert false;
  }

  lemma ExitCountsDown<D, M>(conn: Conn<D>, chain: Chain<D, M>)
    requires Consistent(conn, chain) && chain.control.Leave? && chain.frames.Push?
    requires chain.frames.top.InSavepoint? || chain.frames.top.InTransaction?
    ensures var next := Exit(chain.control.ok, conn, chain);
      next.Some? && ChainLeft(conn, chain) == ChainLeft(next.value.conn, next.value.chain) + 1
  {
    if chain.frames.top.InTransaction? {
      var end := Settle(chain.frames.top.fault, conn.committed, End(chain.control.ok, conn.View(), chain.mem));
      UnwindIgnoresCommitted(chain.frames.below, conn.committed, end.db, chain.scope.savepointCounter + 1, end);
    }
  }

  lemma StatementCountsDown<D, M>(conn: Conn<D>, chain: Chain<D, M>)
    requires Consistent(conn, chain) && chain.control.Run? && chain.control.code.Statement?
    ensures var next := Step(conn, chain);
      next.Some? && ChainLeft(conn, chain) == ChainLeft(next.value.conn, next.value.chain) + 1
  {
    var (db, mem) := chain.control.code.run(conn.View(), chain.mem);
    if conn.Idle? {
      UnwindIgnoresCommitted(chain.frames, conn.committed, db, chain.scope.savepointCounter + 1, End(true, db, mem));
    }
  }

  lemma EnterCountsDown<D, M>(conn: Conn<D>, chain: Chain<D, M>)
    requires Consistent(conn, chain) && chain.control.Run? && chain.control.code.Transaction?
    ensures var next := Step(conn, chain);
      next.Some? && ChainLeft(conn, chain) == ChainLeft(next.value.conn, next.value.chain) + 1
  {
  }

  lemma ThenCountsDown<D, M>(conn: Conn<D>, chain: Chain<D, M>)
    requires Consistent(conn, chain) && chain.control.Run? && chain.control.code.Then?
    ensures var next := Step(conn, chain);
      next.Some? && ChainLeft(conn, chain) == ChainLeft(next.value.conn, next.value.chain) + 1
  {
  }

  lemma LoopCountsDown<D, M>(conn: Conn<D>, chain: Chain<D, M>)
    requires Consistent(conn, chain) && chain.control.Run? && chain.control.code.ForEach?
    ensures var next := Step(conn, chain);
      next.Some? && ChainLeft(conn, chain) == ChainLeft(next.value.conn, next.value.chain) + 1
  {
  }

  lemma CatchCountsDown<D, M>(conn: Conn<D>, chain: Chain<D, M>)
    requires Consistent(conn, chain) && chain.control.Run? && chain.control.code.Catch?
    ensures var next := Step(conn, chain);
      next.Some? && ChainLeft(conn, chain) == ChainLeft(next.value.conn, next.value.chain) + 1
  {
  }

  lemma RunCountsDown<D, M>(conn: Conn<D>, chain: Chain<D, M>)
    requires Consistent(conn, chain) && chain.control.Run?
    ensures var next := Step(conn, chain);
      next.Some? && ChainLeft(conn, chain) == ChainLeft(next.value.conn, next.value.chain) + 1
  {
    match chain.control.code
    case Statement(_) => StatementCountsDown(conn, chain);
    case Then(_, _) => ThenCountsDown(conn, chain);
    case ForEach(_, _) => LoopCountsDown(conn, chain);
    case Catch(_, _) => CatchCountsDown(conn, chain);
    case Transaction(_, _) => EnterCountsDown(conn, chain);
    case _ =>
  }

  /** Each command brings the chain one step closer to its end. */
  lemma StepCountsDown<D, M>(conn: Conn<D>, chain: Chain<D, M>)
    requires Consistent(conn, chain) && !chain.Done()
    ensures var next := Step(conn, chain);
      next.Some? && ChainLeft(conn, chain) == ChainLeft(next.value.conn, next.value.chain) + 1
  {
    if chain.control.Run? {
      RunCountsDown(conn, chain);
    } else if chain.frames.top.InSavepoint? || chain.frames.top.InTransaction? {
      ExitCountsDown(conn, chain);
    }
  }

  // --- The whole system -----------------------------------------------------------

  /** Steps left for the calls from `i` on, when call `i` starts from its serial state. */
  ghost function QueueLeft<D, M>(db: D, entries: seq<Entry<D, M>>, i: nat): nat
    requires i <= |entries|
    decreases |entries| - i
  {
    if i == |entries| then 0
    else 2 + Cost(entries[i].call.code, Serial(db, entries, i), entries[i].call.mem) + QueueLeft(db, entries, i + 1)
  }

  /** Only systems in order, which all reachable ones are, have anything left to count. */
  ghost function Left<D, M>(db: D, s: Sys<D, M>): nat {
    var r := |s.resolved|;
    if !InOrder(s) then 0
    else if HasHolder(s) then 1 + ChainLeft(s.conn, s.entries[r].phase.chain) + QueueLeft(db, s.entries, r + 1)
    else QueueLeft(db, s.entries, r)
  }

  lemma {:induction false} QueueDependsOnCalls<D, M>(db: D, a: seq<Entry<D, M>>, b: seq<Entry<D, M>>, i: nat)
    requires |a| == |b| && i <= |a| && forall j :: 0 <= j < |a| ==> a[j].call == b[j].call
    ensures QueueLeft(db, a, i) == QueueLeft(db, b, i)
    decreases |a| - i
  {
    if i < |a| {
      SerialDependsOnCalls(db, a, b, i);
      QueueDependsOnCalls(db, a, b, i + 1);
    }
  }

  /** Every step that is not a new call lowers the count by exactly one. */
  lemma CountsDown<D(!new), M(!new)>(db: D, trace: seq<Sys<D, M>>, k: nat, s': Sys<D, M>, i: nat)
    requires History(db, trace) && k < |trace| && Moves(trace[k], s', i)
    ensures Left(db, trace[k]) == Left(db, s') + 1
  {
    var s := trace[k];
    Reachable(db, trace, k);
    if Grant(s, s', i) {
      GrantKeeps(db, s, s', i);
    } else if Work(s, s', i) {
      WorkKeeps(db, s, s', i);
      StepCountsDown(s.conn, s.entries[i].phase.chain);
    } else {
      HandOnKeeps(db, s, s', i);
    }
    forall j | 0 <= j <= |s.entries| ensures QueueLeft(db, s.entries, j) == QueueLeft(db, s'.entries, j) {
      QueueDependsOnCalls(db, s.entries, s'.entries, j);
    }
  }

  ghost predicate AllFinished<D, M>(s: Sys<D, M>) {
    forall i :: 0 <= i < |s.entries| ==> s.entries[i].phase.Finished?
  }

  /** Nothing left to do means every call has finished. */
  lemma {:induction false} AllServed<D(!new), M(!new)>(db: D, trace: seq<Sys<D, M>>, k: nat)
    requires History(db, trace) && k < |trace|
    ensures Left(db, trace[k]) == 0 <==> AllFinished(trace[k])
  {
    Reachable(db, trace, k);
    var s := trace[k];
    if |s.resolved| < |s.entries| { assert !s.entries[|s.resolved|].phase.Finished?; }
  }

  lemma Extend<D(!new), M(!new)>(db: D, trace: seq<Sys<D, M>>, s': Sys<D, M>)
    requires History(db, trace) && Next(trace[|trace| - 1], s')
    ensures History(db, trace + [s'])
  {
  }

  /** While something is left, one more step is possible and lowers the count. */
  lemma OneMore<D(!new), M(!new)>(db: D, trace: seq<Sys<D, M>>) returns (s': Sys<D, M>)
    requires History(db, trace) && Left(db, trace[|trace| - 1]) > 0
    ensures Next(trace[|trace| - 1], s') && |s'.entries| == |trace[|trace| - 1].entries|
    ensures Left(db, trace[|trace| - 1]) == Left(db, s') + 1
  {
    var last := |trace| - 1;
    AllServed(db, trace, last);
    var i :| 0 <= i < |trace[last].entries| && !trace[last].entries[i].phase.Finished?;
    NoDeadlock(db, trace, last, i);
    var j, next :| Moves(trace[last], next, j);
    CountsDown(db, trace, last, next, j);
    s' := next;
  }

  /** From every reachable state the calls already made can all finish, in exactly `Left` steps. */
  lemma {:induction false} EveryCallFinishes<D(!new), M(!new)>(db: D, trace: seq<Sys<D, M>>)
    returns (longer: seq<Sys<D, M>>)
    requires History(db, trace)
    ensures trace <= longer && History(db, longer) && |longer| == |trace| + Left(db, trace[|trace| - 1])
    ensures |longer[|longer| - 1].entries| == |trace[|trace| - 1].entries| && AllFinished(longer[|longer| - 1])
    decreases Left(db, trace[|trace| - 1])
  {
    if Left(db, trace[|trace| - 1]) == 0 {
      AllServed(db, trace, |trace| - 1);
      longer := trace;
    } else {
      var s' := OneMore(db, trace);
      Extend(db, trace, s');
      var more := trace + [s'];
      assert more[|more| - 1] == s' && trace <= more;
      longer := EveryCallFinishes(db, more);
    }
  }
}
