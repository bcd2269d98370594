/**
 A unit of work on the flat connection, from its first command to the moment its call returns. Whatever is nested
 in it, and however deep it is nested itself, it ends as its recursive meaning says and leaves the frames and the
 savepoints below it alone.
 */
module SavepointRuns {
  import opened Wrappers
  import opened SqliteTx

  ghost function Height<D, M>(frames: Stack<Frame<D, M>>): nat { if frames.Empty? then 0 else 1 + Height(frames.below) }

  /** What is left when a call has unwound to a caller: the caller's frames and savepoints, and how it ended. */
  datatype Return<!D, !M> = Return(frames: Stack<Frame<D, M>>, savepoints: Stack<Savepoint<D>>, end: End<D, M>)

  /** What the top `n` frames will do with a call that ends in `end`, by the intended meaning. */
  ghost function Unwind<D, M>(
      n: nat, frames: Stack<Frame<D, M>>, savepoints: Stack<Savepoint<D>>, committed: D, end: End<D, M>): Return<D, M>
    decreases frames
  {
    if n == 0 then Return(frames, savepoints, end)
    else
      match frames
      case Empty => Return(Empty, savepoints, end)
      case Push(InFirst(second), below) =>
        Unwind(n - 1, below, savepoints, committed, if end.ok then Meaning(second, end.db, end.mem) else end)
      case Push(InLoop(left, each), below) =>
        Unwind(n - 1, below, savepoints, committed, if end.ok then Repeat(left, each, end.db, end.mem) else end)
      case Push(InCatch(handler), below) =>
        Unwind(n - 1, below, savepoints, committed, if end.ok then end else Meaning(handler, end.db, end.mem))
      case Push(InSavepoint(_, fault), below) =>
        if savepoints.Empty? then Return(frames, savepoints, end)
        else Unwind(n - 1, below, savepoints.below, committed, Settle(fault, savepoints.top.saved, end))
      case Push(InTransaction(fault), below) => Unwind(n - 1, below, Empty, committed, Settle(fault, committed, end))
      case Push(InConnection, below) => Unwind(n - 1, below, savepoints, committed, end)
  }

  ghost function OpenSavepoints<D>(conn: Conn<D>): Stack<Savepoint<D>> { if conn.Open? then conn.savepoints else Empty }

  /** With what the chain is going to return to the caller `n` frames down. */
  ghost function Heading<D, M>(n: nat, conn: Conn<D>, chain: Chain<D, M>): Return<D, M> {
    var end := match chain.control
      case Run(code) => Meaning(code, conn.View(), chain.mem)
      case Leave(ok) => End(ok, conn.View(), chain.mem);
    Unwind(n, chain.frames, OpenSavepoints(conn), conn.committed, end)
  }

  lemma {:induction false} UnwindIgnoresCommitted<D, M>(
      n: nat, frames: Stack<Frame<D, M>>, a: D, b: D, bound: nat, end: End<D, M>)
    requires Matches(frames, Empty, false, bound)
    ensures Unwind(n, frames, Empty, a, end) == Unwind(n, frames, Empty, b, end)
    decreases frames
  {
    if n > 0 {
      match frames
      case Empty =>
      case Push(InFirst(second), below) =>
        UnwindIgnoresCommitted(n - 1, below, a, b, bound, if end.ok then Meaning(second, end.db, end.mem) else end);
      case Push(InLoop(left, each), below) =>
        UnwindIgnoresCommitted(n - 1, below, a, b, bound, if end.ok then Repeat(left, each, end.db, end.mem) else end);
      case Push(InCatch(handler), below) =>
        UnwindIgnoresCommitted(n - 1, below, a, b, bound, if end.ok then end else Meaning(handler, end.db, end.mem));
      case Push(InConnection, below) => UnwindIgnoresCommitted(n - 1, below, a, b, bound, end);
      case _ => assert false;
    }
  }

  /** The call has not returned to the caller at this height yet. */
  ghost predicate Inside<D, M>(chain: Chain<D, M>, base: nat) {
    Height(chain.frames) > base || (Height(chain.frames) == base && chain.control.Run?)
  }

  /** A command inside the call does not change what the call is going to return. */
  lemma StepKeepsHeading<D, M>(conn: Conn<D>, chain: Chain<D, M>, base: nat)
    requires Consistent(conn, chain) && Inside(chain, base)
    ensures !chain.Done()
    ensures var next := Step(conn, chain);
      && next.Some? && Height(next.value.chain.frames) >= base
      && Heading(Height(next.value.chain.frames) - base, next.value.conn, next.value.chain) ==
         Heading(Height(chain.frames) - base, conn, chain)
  {
    StepKeepsMeaning(conn, chain);
    var n := Height(chain.frames) - base;
    match chain.control
    case Run(Statement(run)) =>
      var (db, mem) := run(conn.View(), chain.mem);
      if conn.Idle? {
        UnwindIgnoresCommitted(n, chain.frames, conn.committed, db, chain.scope.savepointCounter + 1,
          End(true, db, mem));
      }
    case Leave(_) =>
      if chain.frames.top.InTransaction? {
        var end := Settle(chain.frames.top.fault, conn.committed, End(chain.control.ok, conn.View(), chain.mem));
        UnwindIgnoresCommitted(n - 1, chain.frames.below, conn.committed, end.db, chain.scope.savepointCounter + 1,
          end);
      }
    case Run(_) =>
  }

  /** Consecutive states of the connection and the chain that works on it. */
  ghost predicate Path<D, M>(conns: seq<Conn<D>>, chains: seq<Chain<D, M>>) {
    && |conns| == |chains| > 0 && Consistent(conns[0], chains[0])
    && forall k :: 0 <= k < |chains| - 1 ==>
         !chains[k].Done() && Step(conns[k], chains[k]) == Some(Moved(conns[k + 1], chains[k + 1]))
  }

  lemma {:induction false} PathKeepsHeading<D, M>(conns: seq<Conn<D>>, chains: seq<Chain<D, M>>, k: nat, base: nat)
    requires Path(conns, chains) && k < |chains| && base <= Height(chains[0].frames)
    requires forall j :: 0 <= j < k ==> Inside(chains[j], base)
    ensures Consistent(conns[k], chains[k]) && Height(chains[k].frames) >= base
    ensures Heading(Height(chains[k].frames) - base, conns[k], chains[k]) == Heading(Height(chains[0].frames) - base,
      conns[0], chains[0])
  {
    if k > 0 {
      PathKeepsHeading(conns, chains, k - 1, base);
      StepKeepsHeading(conns[k - 1], chains[k - 1], base);
      StepKeepsMeaning(conns[k - 1], chains[k - 1]);
    }
  }

  lemma {:induction false} FramesTellOpen<D, M>(
      frames: Stack<Frame<D, M>>, a: Stack<Savepoint<D>>, b: Stack<Savepoint<D>>, open: bool, open': bool, bound: nat,
        bound': nat)
    requires Matches(frames, a, open, bound) && Matches(frames, b, open', bound')
    ensures open == open'
    decreases frames
  {
    match frames
    case Empty =>
    case Push(InSavepoint(name, _), below) => FramesTellOpen(below, a.below, b.below, open, open', name, name);
    case Push(InTransaction(_), below) =>
    case Push(_, below) => FramesTellOpen(below, a, b, open, open', bound, bound');
  }

  /** A call runs `code` from state 0 of the path on, and returns to its caller in state `k`. */
  ghost predicate Returns<D, M>(conns: seq<Conn<D>>, chains: seq<Chain<D, M>>, code: Code<D, M>, k: nat) {
    && Path(conns, chains) && k < |chains| && chains[0].control == Control.Run(code)
    && (forall j :: 0 <= j < k ==> Inside(chains[j], Height(chains[0].frames)))
    && chains[k].control.Leave? && Height(chains[k].frames) == Height(chains[0].frames)
  }

  /**
   A unit of work at any depth, with any nested and caught units inside it: when it returns, the connection shows
   what the unit means from its entry state, and transaction, savepoints and suspended callers are as at the entry.
   */
  lemma UnitReturns<D, M>(conns: seq<Conn<D>>, chains: seq<Chain<D, M>>, code: Code<D, M>, k: nat)
    requires Returns(conns, chains, code, k)
    ensures End(chains[k].control.ok, conns[k].View(), chains[k].mem) == Meaning(code, conns[0].View(), chains[0].mem)
    ensures chains[k].frames == chains[0].frames
    ensures conns[k].Open? == conns[0].Open? && OpenSavepoints(conns[k]) == OpenSavepoints(conns[0])
  {
    PathKeepsHeading(conns, chains, k, Height(chains[0].frames));
    FramesTellOpen(chains[0].frames, OpenSavepoints(conns[0]), OpenSavepoints(conns[k]), conns[0].Open?, conns[k].Open?,
                   chains[0].scope.savepointCounter + 1, chains[k].scope.savepointCounter + 1);
  }

  /**
   A rejected withTransaction, nested or not and whatever ran inside it, leaves the connection showing exactly the
   state at its entry, with the same savepoints to fall back to; its caller may catch the rejection and go on.
   */
  lemma RejectedUnitRestores<D, M>(
      conns: seq<Conn<D>>, chains: seq<Chain<D, M>>, fault: Fault<M>, body: Code<D, M>, k: nat)
    requires Returns(conns, chains, Transaction(fault, body), k) && !chains[k].control.ok
    ensures conns[k].View() == conns[0].View() && OpenSavepoints(conns[k]) == OpenSavepoints(conns[0])
  {
    UnitReturns(conns, chains, Transaction(fault, body), k);
    RejectedRestoresEntry(fault, body, conns[0].View(), chains[0].mem);
  }
}
