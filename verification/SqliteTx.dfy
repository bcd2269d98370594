/**
 Transaction control on one shared SQLite connection.

 `Code` is the body of an asynchronous call chain, cut at its statements: what it does to the
 database, which errors it raises and catches, and where it calls `withTransaction` or
 `withConnection` again. `Meaning` gives such a body its intended, recursive reading. `Step` runs the
 same body the way the adapter does, one SQL command at a time, against a connection that only knows
 BEGIN, COMMIT, ROLLBACK and a stack of named savepoints. `StepKeepsMeaning` is the refinement.
 */
module SqliteTx {
  import opened Wrappers

  datatype Stack<T> = Empty | Push(top: T, below: Stack<T>)

  /** What the environment does to one transaction: the opening or the closing command may fail. */
  datatype Fault<!M> =
    | Clean
    | OpenFails(raise: M -> M)
    | CloseFails(raise: M -> M)

  /** `D` is the database, `M` the chain's own variables, which no rollback restores. */
  datatype Code<!D, !M> =
    | Statement(run: (D, M) -> (D, M))
    | Throw(raise: M -> M)
    | Then(first: Code<D, M>, second: Code<D, M>)
    | If(test: M -> bool, yes: Code<D, M>, no: Code<D, M>)
    | ForEach(count: M -> nat, each: Code<D, M>)
    | Catch(attempt: Code<D, M>, handler: Code<D, M>)
    | Transaction(fault: Fault<M>, body: Code<D, M>)
    | Connection(body: Code<D, M>)

  /** How a call ended: resolved or rejected, the database, and the chain's variables. */
  datatype End<D, M> = End(ok: bool, db: D, mem: M)

  // --- Intended meaning ---------------------------------------------------

  /** A transaction that was entered in `entry` keeps its writes only if it resolves and closes. */
  function Settle<D, M>(fault: Fault<M>, entry: D, end: End<D, M>): End<D, M> {
    if !end.ok then end.(db := entry)
    else if fault.CloseFails? then End(false, entry, fault.raise(end.mem))
    else end
  }

  function Meaning<D, M>(code: Code<D, M>, db: D, mem: M): End<D, M>
    decreases code, 0
  {
    match code
    case Statement(run) => var (db', mem') := run(db, mem); End(true, db', mem')
    case Throw(raise) => End(false, db, raise(mem))
    case Then(first, second) =>
      var e := Meaning(first, db, mem);
      if e.ok then Meaning(second, e.db, e.mem) else e
    case If(test, yes, no) => if test(mem) then Meaning(yes, db, mem) else Meaning(no, db, mem)
    case ForEach(count, each) => Repeat(count(mem), each, db, mem)
    case Catch(attempt, handler) =>
      var e := Meaning(attempt, db, mem);
      if e.ok then e else Meaning(handler, e.db, e.mem)
    case Transaction(fault, body) =>
      if fault.OpenFails? then End(false, db, fault.raise(mem))
      else Settle(fault, db, Meaning(body, db, mem))
    case Connection(body) => Meaning(body, db, mem)
  }

  function Repeat<D, M>(n: nat, each: Code<D, M>, db: D, mem: M): End<D, M>
    decreases each, n + 1
  {
    if n == 0 then End(true, db, mem)
    else
      var e := Meaning(each, db, mem);
      if e.ok then Repeat(n - 1, each, e.db, e.mem) else e
  }

  // --- The connection -----------------------------------------------------

  datatype Savepoint<D> = Savepoint(name: nat, saved: D)

  /** `Open` is SQLite's in-transaction state: what is on disk, what this connection sees, savepoints. */
  datatype Conn<D> =
    | Idle(committed: D)
    | Open(committed: D, work: D, savepoints: Stack<Savepoint<D>>)
  {
    function View(): D { if Open? then work else committed }

    /** A write autocommits when no transaction is open. */
    function Write(db: D): Conn<D> { if Open? then this.(work := db) else Idle(db) }
  }

  // Each command answers None when SQLite refuses it.

  function Begin<D>(conn: Conn<D>): Option<Conn<D>> {
    if conn.Idle? then Some(Open(conn.committed, conn.committed, Empty)) else None
  }

  function Commit<D>(conn: Conn<D>): Option<Conn<D>> {
    if conn.Open? then Some(Idle(conn.work)) else None
  }

  function Rollback<D>(conn: Conn<D>): Option<Conn<D>> {
    if conn.Open? then Some(Idle(conn.committed)) else None
  }

  /** Outside a transaction SQLite would open one here; the adapter never gets there, so refuse. */
  function SetSavepoint<D>(name: nat, conn: Conn<D>): Option<Conn<D>> {
    if conn.Open? then Some(conn.(savepoints := Push(Savepoint(name, conn.work), conn.savepoints))) else None
  }

  /** The most recent savepoint of that name, with everything below it. */
  function Find<D>(name: nat, stack: Stack<Savepoint<D>>): Option<Stack<Savepoint<D>>> {
    match stack
    case Empty => None
    case Push(top, below) => if top.name == name then Some(stack) else Find(name, below)
  }

  function Release<D>(name: nat, conn: Conn<D>): Option<Conn<D>> {
    if conn.Idle? then None
    else match Find(name, conn.savepoints)
      case Some(Push(_, below)) => Some(conn.(savepoints := below))
      case _ => None
  }

  function RollbackTo<D>(name: nat, conn: Conn<D>): Option<Conn<D>> {
    if conn.Idle? then None
    else match Find(name, conn.savepoints)
      case Some(Push(top, below)) => Some(conn.(work := top.saved, savepoints := Push(top, below)))
      case _ => None
  }

  // --- One call chain, one command at a time --------------------------------

  datatype Frame<!D, !M> =
    | InFirst(second: Code<D, M>)
    | InLoop(left: nat, each: Code<D, M>)
    | InCatch(handler: Code<D, M>)
    | InSavepoint(name: nat, fault: Fault<M>)
    | InTransaction(fault: Fault<M>)
    | InConnection

  datatype Control<!D, !M> = Run(code: Code<D, M>) | Leave(ok: bool)

  datatype Scope = Scope(inTransaction: bool, savepointCounter: nat)

  datatype Chain<!D, !M> =
    Chain(scope: Scope, frames: Stack<Frame<D, M>>, control: Control<D, M>, mem: M)
  {
    ghost predicate Done() { control.Leave? && frames.Empty? }
  }

  function Start<D, M>(code: Code<D, M>, mem: M): Chain<D, M> {
    Chain(Scope(false, 0), Empty, Run(code), mem)
  }

  datatype Moved<!D, !M> = Moved(conn: Conn<D>, chain: Chain<D, M>)

  function Advance<D, M>(conn: Option<Conn<D>>, chain: Chain<D, M>): Option<Moved<D, M>> {
    if conn.Some? then Some(Moved(conn.value, chain)) else None
  }

  /** withTransaction, up to its body: a savepoint inside a transaction, BEGIN otherwise. */
  function Enter<D, M>(fault: Fault<M>, body: Code<D, M>, conn: Conn<D>, chain: Chain<D, M>): Option<Moved<D, M>> {
    if chain.scope.inTransaction then
      var name := chain.scope.savepointCounter + 1;
      var chain := chain.(scope := Scope(true, name));
      if fault.OpenFails? then
        Some(Moved(conn, chain.(control := Leave(false), mem := fault.raise(chain.mem))))
      else
        Advance(SetSavepoint(name, conn),
                chain.(frames := Push(InSavepoint(name, fault), chain.frames), control := Run(body)))
    else if fault.OpenFails? then
      Some(Moved(conn, chain.(control := Leave(false), mem := fault.raise(chain.mem))))
    else
      Advance(Begin(conn),
              chain.(scope := chain.scope.(inTransaction := true),
                     frames := Push(InTransaction(fault), chain.frames), control := Run(body)))
  }

  /** The catch branch of the nested form: undo to the savepoint, then drop it. */
  function UndoSavepoint<D>(name: nat, conn: Conn<D>): Option<Conn<D>> {
    if conn.Idle? then Some(conn)
    else match RollbackTo(name, conn)
      case Some(back) => Release(name, back)
      case None => None
  }

  function UndoAll<D>(conn: Conn<D>): Option<Conn<D>> {
    if conn.Idle? then Some(conn) else Rollback(conn)
  }

  /** withTransaction, after its body settled. */
  function Exit<D, M>(ok: bool, conn: Conn<D>, chain: Chain<D, M>): Option<Moved<D, M>>
    requires chain.frames.Push?
    requires chain.frames.top.InSavepoint? || chain.frames.top.InTransaction?
  {
    var frame := chain.frames.top;
    var out := chain.(frames := chain.frames.below,
                      scope := if frame.InTransaction? then chain.scope.(inTransaction := false) else chain.scope);
    if ok && !frame.fault.CloseFails? then
      Advance(if frame.InSavepoint? then Release(frame.name, conn) else Commit(conn), out.(control := Leave(true)))
    else
      Advance(if frame.InSavepoint? then UndoSavepoint(frame.name, conn) else UndoAll(conn),
              out.(control := Leave(false), mem := if ok then frame.fault.raise(chain.mem) else chain.mem))
  }

  /** One step of the chain that holds the connection; None when SQLite refuses a command. */
  function Step<D, M>(conn: Conn<D>, chain: Chain<D, M>): Option<Moved<D, M>>
    requires !chain.Done()
  {
    match chain.control
    case Run(Statement(run)) =>
      var (db, mem) := run(conn.View(), chain.mem);
      Some(Moved(conn.Write(db), chain.(control := Leave(true), mem := mem)))
    case Run(Throw(raise)) => Some(Moved(conn, chain.(control := Leave(false), mem := raise(chain.mem))))
    case Run(Then(first, second)) =>
      Some(Moved(conn, chain.(control := Run(first), frames := Push(InFirst(second), chain.frames))))
    case Run(If(test, yes, no)) => Some(Moved(conn, chain.(control := Run(if test(chain.mem) then yes else no))))
    case Run(ForEach(count, each)) =>
      Some(Moved(conn, chain.(control := Leave(true), frames := Push(InLoop(count(chain.mem), each), chain.frames))))
    case Run(Catch(attempt, handler)) =>
      Some(Moved(conn, chain.(control := Run(attempt), frames := Push(InCatch(handler), chain.frames))))
    case Run(Transaction(fault, body)) => Enter(fault, body, conn, chain)
    case Run(Connection(body)) =>
      Some(Moved(conn, chain.(control := Run(body), frames := Push(InConnection, chain.frames))))
    case Leave(ok) =>
      var out := chain.(frames := chain.frames.below);
      match chain.frames.top
      case InFirst(second) => Some(Moved(conn, if ok then out.(control := Run(second)) else out))
      case InLoop(left, each) =>
        Some(Moved(conn,
                   if ok && left > 0
                   then chain.(control := Run(each), frames := Push(InLoop(left - 1, each), chain.frames.below))
                   else out))
      case InCatch(handler) => Some(Moved(conn, if ok then out else out.(control := Run(handler))))
      case InConnection => Some(Moved(conn, out))
      case _ => Exit(ok, conn, chain)
  }

  // --- Refinement -----------------------------------------------------------

  /**
   The frames of the chain and the savepoints of the connection belong together: one savepoint per
   savepoint frame, same name and order, names strictly below `bound`, all above the one BEGIN.
   */
  ghost predicate Matches<D, M>(frames: Stack<Frame<D, M>>, savepoints: Stack<Savepoint<D>>, open: bool, bound: nat)
    decreases frames
  {
    match frames
    case Empty => !open && savepoints.Empty?
    case Push(InSavepoint(name, _), below) =>
      open && savepoints.Push? && savepoints.top.name == name && name < bound &&
      Matches(below, savepoints.below, open, name)
    case Push(InTransaction(_), below) => open && savepoints.Empty? && Matches(below, Empty, false, bound)
    case Push(_, below) => Matches(below, savepoints, open, bound)
  }

  ghost predicate Consistent<D, M>(conn: Conn<D>, chain: Chain<D, M>) {
    && chain.scope.inTransaction == conn.Open?
    && Matches(chain.frames, if conn.Open? then conn.savepoints
          else Empty, conn.Open?, chain.scope.savepointCounter + 1)
  }

  /** What the suspended frames will do with a call that ends in `end`, by the intended meaning. */
  ghost function Continue<D, M>(
      frames: Stack<Frame<D, M>>, savepoints: Stack<Savepoint<D>>, committed: D, end: End<D, M>):
    End<D, M>
    decreases frames
  {
    match frames
    case Empty => end
    case Push(InFirst(second), below) =>
      Continue(below, savepoints, committed, if end.ok then Meaning(second, end.db, end.mem) else end)
    case Push(InLoop(left, each), below) =>
      Continue(below, savepoints, committed, if end.ok then Repeat(left, each, end.db, end.mem) else end)
    case Push(InCatch(handler), below) =>
      Continue(below, savepoints, committed, if end.ok then end else Meaning(handler, end.db, end.mem))
    case Push(InSavepoint(_, fault), below) =>
      if savepoints.Empty? then end
      else Continue(below, savepoints.below, committed, Settle(fault, savepoints.top.saved, end))
    case Push(InTransaction(fault), below) => Continue(below, Empty, committed, Settle(fault, committed, end))
    case Push(InConnection, below) => Continue(below, savepoints, committed, end)
  }

  /** Where the rest of the chain leads, read off the recursive meaning. */
  ghost function Outcome<D, M>(conn: Conn<D>, chain: Chain<D, M>): End<D, M> {
    var savepoints := if conn.Open? then conn.savepoints else Empty;
    var end := match chain.control
      case Run(code) => Meaning(code, conn.View(), chain.mem)
      case Leave(ok) => End(ok, conn.View(), chain.mem);
    Continue(chain.frames, savepoints, conn.committed, end)
  }

  /** An autocommitting statement changes what is committed; no frame outside a transaction looks at it. */
  lemma {:induction false} ContinueIgnoresCommitted<D, M>(
      frames: Stack<Frame<D, M>>, a: D, b: D, bound: nat, end: End<D, M>)
    requires Matches(frames, Empty, false, bound)
    ensures Continue(frames, Empty, a, end) == Continue(frames, Empty, b, end)
    decreases frames
  {
    match frames
    case Empty =>
    case Push(InFirst(second), below) =>
      ContinueIgnoresCommitted(below, a, b, bound, if end.ok then Meaning(second, end.db, end.mem) else end);
    case Push(InLoop(left, each), below) =>
      ContinueIgnoresCommitted(below, a, b, bound, if end.ok then Repeat(left, each, end.db, end.mem) else end);
    case Push(InCatch(handler), below) =>
      ContinueIgnoresCommitted(below, a, b, bound, if end.ok then end else Meaning(handler, end.db, end.mem));
    case Push(InConnection, below) => ContinueIgnoresCommitted(below, a, b, bound, end);
    case _ => assert false;
  }

  lemma {:induction false} MatchesWiden<D, M>(
      frames: Stack<Frame<D, M>>, savepoints: Stack<Savepoint<D>>, open: bool, bound: nat, wider: nat)
    requires Matches(frames, savepoints, open, bound) && bound <= wider
    ensures Matches(frames, savepoints, open, wider)
    decreases frames
  {
    match frames
    case Empty =>
    case Push(InSavepoint(_, _), below) =>
    case Push(InTransaction(_), below) => MatchesWiden(below, Empty, false, bound, wider);
    case Push(_, below) => MatchesWiden(below, savepoints, open, bound, wider);
  }

  /** Opening keeps the meaning: the savepoint or BEGIN remembers exactly the entry state. */
  lemma EnterKeepsMeaning<D, M>(conn: Conn<D>, chain: Chain<D, M>)
    requires Consistent(conn, chain) && chain.control.Run? && chain.control.code.Transaction?
    ensures var next := Step(conn, chain);
      next.Some? && Consistent(next.value.conn, next.value.chain) &&
      Outcome(next.value.conn, next.value.chain) == Outcome(conn, chain)
  {
    var sp := if conn.Open? then conn.savepoints else Empty;
    var c := chain.scope.savepointCounter;
    MatchesWiden(chain.frames, sp, conn.Open?, c + 1, c + 2);
  }

  /** Closing keeps the meaning: RELEASE and COMMIT keep the writes, ROLLBACK restores the entry state. */
  lemma ExitKeepsMeaning<D, M>(conn: Conn<D>, chain: Chain<D, M>)
    requires Consistent(conn, chain) && chain.control.Leave? && chain.frames.Push?
    requires chain.frames.top.InSavepoint? || chain.frames.top.InTransaction?
    ensures var next := Step(conn, chain);
      next.Some? && Consistent(next.value.conn, next.value.chain) &&
      Outcome(next.value.conn, next.value.chain) == Outcome(conn, chain)
  {
    var frame := chain.frames.top;
    var end := Settle(frame.fault, if frame.InSavepoint? then conn.savepoints.top.saved else conn.committed,
                      End(chain.control.ok, conn.View(), chain.mem));
    var c := chain.scope.savepointCounter;
    if frame.InTransaction? {
      ContinueIgnoresCommitted(chain.frames.below, conn.committed, end.db, c + 1, end);
    } else {
      MatchesWiden(chain.frames.below, conn.savepoints.below, true, frame.name, c + 1);
    }
  }

  /**
   The flat commands refine the recursive meaning: no command is ever refused, the frames stay in
   step with the savepoint stack, and the outcome the chain is heading for does not move.
   */
  lemma StepKeepsMeaning<D, M>(conn: Conn<D>, chain: Chain<D, M>)
    requires Consistent(conn, chain) && !chain.Done()
    ensures var next := Step(conn, chain);
      next.Some? && Consistent(next.value.conn, next.value.chain) &&
      Outcome(next.value.conn, next.value.chain) == Outcome(conn, chain)
  {
    match chain.control
    case Run(Transaction(_, _)) => EnterKeepsMeaning(conn, chain);
    case Run(Statement(run)) =>
      var (db, mem) := run(conn.View(), chain.mem);
      if conn.Idle? {
        ContinueIgnoresCommitted(chain.frames, conn.committed, db, chain.scope.savepointCounter + 1,
          End(true, db, mem));
      }
    case Leave(_) =>
      if chain.frames.top.InSavepoint? || chain.frames.top.InTransaction? { ExitKeepsMeaning(conn, chain); }
    case Run(_) =>
  }

  // --- What a reader gets from the meaning ----------------------------------

  /** A rejected transaction contributes nothing, wherever it is nested and whatever ran inside it. */
  lemma RejectedRestoresEntry<D, M>(fault: Fault<M>, body: Code<D, M>, db: D, mem: M)
    ensures var e := Meaning(Transaction(fault, body), db, mem); !e.ok ==> e.db == db
  {
  }
}
