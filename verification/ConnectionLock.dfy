/**
 The promise chain that hands one connection from call to call, and every interleaving of calls.

 A top-level `withTransaction` or `withConnection` swaps the tail promise for its own and awaits the
 previous tail; when its body has settled it resolves its promise. Steps of different calls interleave
 freely. The invariant says what a run can look like: the calls are served in the order they asked,
 one at a time, and what is committed is always what running them one after another would leave.
 */
module ConnectionLock {
  import opened Wrappers
  import opened SqliteTx

  /** One top-level call: its body and the variables its call chain starts with. */
  datatype Call<!D, !M> = Call(code: Code<D, M>, mem: M)

  /** `previous` and `mine` name promises; None stands for `Promise.resolve()`. */
  datatype Phase<!D, !M> =
    | Waiting(previous: Option<nat>, mine: nat)
    | Holding(mine: nat, chain: Chain<D, M>)
    | Finished(end: End<D, M>)

  datatype Entry<!D, !M> = Entry(call: Call<D, M>, phase: Phase<D, M>)

  /** `entries` grows in the order of the calls; `granted` is the order in which the lock was given. */
  datatype Sys<!D, !M> = Sys(
    conn: Conn<D>,
    entries: seq<Entry<D, M>>,
    promises: nat,
    tail: Option<nat>,
    resolved: set<nat>,
    granted: seq<nat>)

  function Initial<D, M>(db: D): Sys<D, M> {
    Sys(Idle(db), [], 0, None, {}, [])
  }

  // --- Steps ----------------------------------------------------------------

  /** A call chain without a scope asks for the connection: swap the tail, remember the old one. */
  ghost predicate Ask<D, M>(s: Sys<D, M>, s': Sys<D, M>, call: Call<D, M>) {
    s' == s.(entries := s.entries + [Entry(call, Waiting(s.tail, s.promises))],
             promises := s.promises + 1,
             tail := Some(s.promises))
  }

  /** The awaited promise is resolved: the call becomes the connection's user, in a fresh scope. */
  ghost predicate Grant<D, M>(s: Sys<D, M>, s': Sys<D, M>, i: nat) {
    && i < |s.entries| && s.entries[i].phase.Waiting?
    && var Entry(call, Waiting(previous, mine)) := s.entries[i];
    && (previous.None? || previous.value in s.resolved)
    && s' == s.(entries := s.entries[i := Entry(call, Holding(mine, Start(call.code, call.mem)))],
                granted := s.granted + [i])
  }

  /** A holder runs one command. */
  ghost predicate Work<D, M>(s: Sys<D, M>, s': Sys<D, M>, i: nat) {
    && i < |s.entries| && s.entries[i].phase.Holding? && !s.entries[i].phase.chain.Done()
    && var Entry(call, Holding(mine, chain)) := s.entries[i];
    && var next := Step(s.conn, chain);
    && next.Some?
    && s' == s.(conn := next.value.conn, entries := s.entries[i := Entry(call, Holding(mine, next.value.chain))])
  }

  /** The body has settled either way: resolve the promise the next call awaits. */
  ghost predicate HandOn<D, M>(s: Sys<D, M>, s': Sys<D, M>, i: nat) {
    && i < |s.entries| && s.entries[i].phase.Holding? && s.entries[i].phase.chain.Done()
    && var Entry(call, Holding(mine, chain)) := s.entries[i];
    && s' == s.(entries := s.entries[i := Entry(call, Finished(End(chain.control.ok, s.conn.View(), chain.mem)))],
                resolved := s.resolved + {mine})
  }

  /** A step that is not a new call. */
  ghost predicate Moves<D, M>(s: Sys<D, M>, s': Sys<D, M>, i: nat) {
    Grant(s, s', i) || Work(s, s', i) || HandOn(s, s', i)
  }

  ghost predicate Next<D(!new), M(!new)>(s: Sys<D, M>, s': Sys<D, M>) {
    || (exists call :: Ask(s, s', call))
    || (exists i :: Grant(s, s', i))
    || (exists i :: Work(s, s', i))
    || (exists i :: HandOn(s, s', i))
  }

  ghost predicate History<D(!new), M(!new)>(db: D, trace: seq<Sys<D, M>>) {
    && |trace| > 0 && trace[0] == Initial(db)
    && forall k :: 0 <= k < |trace| - 1 ==> Next(trace[k], trace[k + 1])
  }

  // --- The serial reading -----------------------------------------------------

  /** The database after running the first `n` calls one at a time. */
  ghost function Serial<D, M>(db: D, entries: seq<Entry<D, M>>, n: nat): D
    requires n <= |entries|
    decreases n, 0
  {
    if n == 0 then db else SerialEnd(db, entries, n - 1).db
  }

  /** How call `i` ends when it runs alone after its predecessors. */
  ghost function SerialEnd<D, M>(db: D, entries: seq<Entry<D, M>>, i: nat): End<D, M>
    requires i < |entries|
    decreases i, 1
  {
    Meaning(entries[i].call.code, Serial(db, entries, i), entries[i].call.mem)
  }

  lemma {:induction false} SerialDependsOnCalls<D, M>(db: D, a: seq<Entry<D, M>>, b: seq<Entry<D, M>>, n: nat)
    requires n <= |a| && n <= |b| && forall i :: 0 <= i < n ==> a[i].call == b[i].call
    ensures Serial(db, a, n) == Serial(db, b, n)
  {
    if n > 0 { SerialDependsOnCalls(db, a, b, n - 1); }
  }

  // --- The invariant ------------------------------------------------------------

  /** Promises are numbered like the calls, and each call awaits its predecessor's. */
  ghost predicate Chained<D, M>(s: Sys<D, M>) {
    && s.promises == |s.entries|
    && s.tail == (if |s.entries| == 0 then None else Some(|s.entries| - 1))
    && (forall i :: 0 <= i < |s.entries| && s.entries[i].phase.Waiting? ==>
          s.entries[i].phase == Waiting(if i == 0 then None else Some(i - 1), i))
    && (forall i :: 0 <= i < |s.entries| && s.entries[i].phase.Holding? ==> s.entries[i].phase.mine == i)
  }

  /** How many calls have handed the connection on. */
  ghost function Served<D, M>(s: Sys<D, M>): nat { |s.resolved| }

  ghost predicate HasHolder<D, M>(s: Sys<D, M>) { |s.granted| > Served(s) }

  ghost function Below(n: nat): (r: set<nat>)
    ensures |r| == n && forall k: nat :: k in r <==> k < n
  {
    if n == 0 then {} else Below(n - 1) + {n - 1}
  }

  /** Grants follow the order of the calls; all but possibly the last granted call have finished. */
  ghost predicate InOrder<D, M>(s: Sys<D, M>) {
    && var g, r := |s.granted|, Served(s);
    && r <= g <= r + 1 && g <= |s.entries|
    && (forall k :: 0 <= k < g ==> s.granted[k] == k)
    && s.resolved == Below(r)
    && (forall i :: 0 <= i < |s.entries| ==>
          && (i < r <==> s.entries[i].phase.Finished?)
          && (r <= i < g <==> s.entries[i].phase.Holding?)
          && (g <= i <==> s.entries[i].phase.Waiting?))
  }

  /** Finished calls ended as they would have alone; the holder is heading where it would alone. */
  ghost predicate Serializable<D, M>(db: D, s: Sys<D, M>)
    requires InOrder(s)
  {
    && var r := Served(s);
    && (forall i :: 0 <= i < r ==> s.entries[i].phase.end == SerialEnd(db, s.entries, i))
    && (!HasHolder(s) ==> s.conn == Idle(Serial(db, s.entries, r)))
    && (HasHolder(s) ==>
          var chain := s.entries[r].phase.chain;
          && Consistent(s.conn, chain)
          && Outcome(s.conn, chain) == SerialEnd(db, s.entries, r)
          && Isolated(s.entries[r].call.code, Serial(db, s.entries, r), s.conn, chain))
  }

  /**
   While a transaction is the top-level call, disk holds exactly what its predecessors left: nothing
   before COMMIT, and everything only with it.
   */
  ghost predicate Isolated<D, M>(code: Code<D, M>, entry: D, conn: Conn<D>, chain: Chain<D, M>) {
    code.Transaction? ==>
      || (conn == Idle(entry) && chain.frames.Empty? && chain.control == Control.Run(code))
      || (conn.Open? && conn.committed == entry && Rooted(chain.frames))
      || (conn.Idle? && chain.Done())
  }

  /** The bottom frame is the top-level BEGIN. */
  ghost predicate Rooted<D, M>(frames: Stack<Frame<D, M>>) {
    && frames.Push?
    && if frames.below.Empty? then frames.top.InTransaction? else !frames.top.InTransaction? && Rooted(frames.below)
  }

  ghost predicate Inv<D, M>(db: D, s: Sys<D, M>) {
    Chained(s) && InOrder(s) && Serializable(db, s)
  }

  // --- Every step keeps it --------------------------------------------------------

  lemma SameCallsSameSerial<D, M>(db: D, s: Sys<D, M>, s': Sys<D, M>)
    requires |s.entries| <= |s'.entries|
    requires forall i :: 0 <= i < |s.entries| ==> s.entries[i].call == s'.entries[i].call
    ensures forall n :: 0 <= n <= |s.entries| ==> Serial(db, s.entries, n) == Serial(db, s'.entries, n)
    ensures forall i :: 0 <= i < |s.entries| ==> SerialEnd(db, s.entries, i) == SerialEnd(db, s'.entries, i)
  {
    forall n | 0 <= n <= |s.entries| ensures Serial(db, s.entries, n) == Serial(db, s'.entries, n) {
      SerialDependsOnCalls(db, s.entries, s'.entries, n);
    }
  }

  lemma AskKeeps<D, M>(db: D, s: Sys<D, M>, s': Sys<D, M>, call: Call<D, M>)
    requires Inv(db, s) && Ask(s, s', call)
    ensures Inv(db, s')
  {
    SameCallsSameSerial(db, s, s');
  }

  lemma GrantKeeps<D, M>(db: D, s: Sys<D, M>, s': Sys<D, M>, i: nat)
    requires Inv(db, s) && Grant(s, s', i)
    ensures Inv(db, s') && i == |s.granted| == Served(s)
  {
    SameCallsSameSerial(db, s, s');
  }

  lemma WorkKeeps<D, M>(db: D, s: Sys<D, M>, s': Sys<D, M>, i: nat)
    requires Inv(db, s) && Work(s, s', i)
    ensures Inv(db, s')
  {
    SameCallsSameSerial(db, s, s');
    var chain := s.entries[i].phase.chain;
    StepKeepsMeaning(s.conn, chain);
    StepKeepsIsolation(s.entries[i].call.code, Serial(db, s.entries, i), s.conn, chain);
  }

  /** Only a top-level close leaves the root, and then the chain is done. */
  lemma StepKeepsIsolation<D, M>(code: Code<D, M>, entry: D, conn: Conn<D>, chain: Chain<D, M>)
    requires Consistent(conn, chain) && !chain.Done() && Isolated(code, entry, conn, chain)
    ensures var next := Step(conn, chain);
      next.Some? && Isolated(code, entry, next.value.conn, next.value.chain)
  {
    StepKeepsMeaning(conn, chain);
    if code.Transaction? && chain.control.Leave? && chain.frames.top.InSavepoint? {
      assert Find(chain.frames.top.name, conn.savepoints) == Some(conn.savepoints);
    }
  }

  lemma HandOnKeeps<D, M>(db: D, s: Sys<D, M>, s': Sys<D, M>, i: nat)
    requires Inv(db, s) && HandOn(s, s', i)
    ensures Inv(db, s') && s'.conn.Idle?
  {
    SameCallsSameSerial(db, s, s');
    assert s'.resolved == Below(i + 1);
  }

  lemma NextKeeps<D(!new), M(!new)>(db: D, s: Sys<D, M>, s': Sys<D, M>)
    requires Inv(db, s) && Next(s, s')
    ensures Inv(db, s')
  {
    if call :| Ask(s, s', call) { AskKeeps(db, s, s', call); }
    else if i :| Grant(s, s', i) { GrantKeeps(db, s, s', i); }
    else if i :| Work(s, s', i) { WorkKeeps(db, s, s', i); }
    else { var i :| HandOn(s, s', i); HandOnKeeps(db, s, s', i); }
  }

  lemma {:induction false} Reachable<D(!new), M(!new)>(db: D, trace: seq<Sys<D, M>>, k: nat)
    requires History(db, trace) && k < |trace|
    ensures Inv(db, trace[k])
  {
    if k > 0 {
      Reachable(db, trace, k - 1);
      NextKeeps(db, trace[k - 1], trace[k]);
    }
  }

  // --- Main results -----------------------------------------------------------------

  /**
   Serial equivalence, for every interleaving of any number of calls: whenever nobody holds the
   connection, no transaction is open and what is committed is what running the calls one at a time
   in grant order leaves; and each finished call ended exactly as it does in that serial run.
   */
  lemma SerialEquivalence<D(!new), M(!new)>(db: D, trace: seq<Sys<D, M>>, k: nat)
    requires History(db, trace) && k < |trace|
    ensures var s := trace[k]; var r := |s.resolved|;
      && r <= |s.granted| <= |s.entries|
      && (forall j :: 0 <= j < |s.granted| ==> s.granted[j] == j)
      && (|s.granted| == r ==> s.conn == Idle(Serial(db, s.entries, r)))
      && (forall i :: 0 <= i < |s.entries| && s.entries[i].phase.Finished? ==>
            s.entries[i].phase.end == SerialEnd(db, s.entries, i))
  {
    Reachable(db, trace, k);
  }

  /**
   The lock: at most one call holds the connection, everyone is served in the order of asking, a
   holder's scope says what the connection is doing, and the connection is idle whenever it changes hands.
   */
  lemma Exclusive<D(!new), M(!new)>(db: D, trace: seq<Sys<D, M>>, k: nat)
    requires History(db, trace) && k < |trace|
    ensures var s := trace[k];
      && (forall i, j :: 0 <= i < j < |s.entries| ==>
            && !(s.entries[i].phase.Holding? && s.entries[j].phase.Holding?)
            && (!s.entries[j].phase.Waiting? ==> s.entries[i].phase.Finished?))
      && (forall i :: 0 <= i < |s.entries| && s.entries[i].phase.Holding? ==>
            && s.entries[i].phase.chain.scope.inTransaction == s.conn.Open?
            && (s.entries[i].phase.chain.Done() ==> s.conn.Idle?))
      && ((forall i :: 0 <= i < |s.entries| ==> !s.entries[i].phase.Holding?) ==>
            s.conn.Idle? && |s.granted| == |s.resolved|)
  {
    Reachable(db, trace, k);
    var s := trace[k];
    if HasHolder(s) { assert s.entries[Served(s)].phase.Holding?; }
  }

  /** A call that used withTransaction and rejected contributed nothing to the serial run. */
  lemma RejectedContributesNothing<D(!new), M(!new)>(db: D, trace: seq<Sys<D, M>>, k: nat, i: nat)
    requires History(db, trace) && k < |trace| && i < |trace[k].entries|
    requires trace[k].entries[i].phase.Finished? && trace[k].entries[i].call.code.Transaction?
    requires !trace[k].entries[i].phase.end.ok
    ensures Serial(db, trace[k].entries, i + 1) == Serial(db, trace[k].entries, i)
  {
    Reachable(db, trace, k);
    var Call(code, mem) := trace[k].entries[i].call;
    RejectedRestoresEntry(code.fault, code.body, Serial(db, trace[k].entries, i), mem);
  }

  /** While a withTransaction call is running, nothing of it has reached the disk. */
  lemma NothingEarly<D(!new), M(!new)>(db: D, trace: seq<Sys<D, M>>, k: nat, i: nat)
    requires History(db, trace) && k < |trace| && i < |trace[k].entries|
    requires trace[k].entries[i].phase.Holding? && !trace[k].entries[i].phase.chain.Done()
    requires trace[k].entries[i].call.code.Transaction?
    ensures trace[k].conn.committed == Serial(db, trace[k].entries, i)
  {
    Reachable(db, trace, k);
  }

  /** No call waits for a promise that nobody will resolve: while work is left, some call can move. */
  lemma NoDeadlock<D(!new), M(!new)>(db: D, trace: seq<Sys<D, M>>, k: nat, i: nat)
    requires History(db, trace) && k < |trace| && i < |trace[k].entries| && !trace[k].entries[i].phase.Finished?
    ensures exists j, s' :: Moves(trace[k], s', j)
  {
    Reachable(db, trace, k);
    var s := trace[k];
    var r := Served(s);
    var Entry(call, phase) := s.entries[r];
    if phase.Waiting? {
      var s' := s.(entries := s.entries[r := Entry(call, Holding(phase.mine, Start(call.code, call.mem)))],
        granted := s.granted + [r]);
      assert Moves(s, s', r);
    } else if phase.chain.Done() {
      var end := End(phase.chain.control.ok, s.conn.View(), phase.chain.mem);
      var s' := s.(entries := s.entries[r := Entry(call, Finished(end))], resolved := s.resolved + {phase.mine});
      assert Moves(s, s', r);
    } else {
      StepKeepsMeaning(s.conn, phase.chain);
      var next := Step(s.conn, phase.chain).value;
      var s' := s.(conn := next.conn, entries := s.entries[r := Entry(call, Holding(phase.mine, next.chain))]);
      assert Moves(s, s', r);
    }
  }

  /**
   Whatever every call keeps when it runs alone holds of the committed database in every reachable
   state in which no call is at work: facts about units carry over to every interleaving.
   */
  lemma CarryOver<D(!new), M(!new)>(db: D, keeps: D -> bool, trace: seq<Sys<D, M>>, k: nat)
    requires History(db, trace) && k < |trace| && keeps(db)
    requires forall i, d :: 0 <= i < |trace[k].entries| && keeps(d) ==>
               keeps(Meaning(trace[k].entries[i].call.code, d, trace[k].entries[i].call.mem).db)
    requires forall i :: 0 <= i < |trace[k].entries| ==> !trace[k].entries[i].phase.Holding?
    ensures trace[k].conn.Idle? && keeps(trace[k].conn.committed)
  {
    Reachable(db, trace, k);
    Exclusive(db, trace, k);
    SerialKeeps(db, keeps, trace[k].entries, Served(trace[k]));
  }

  lemma {:induction false} SerialKeeps<D(!new), M(!new)>(db: D, keeps: D -> bool, entries: seq<Entry<D, M>>, n: nat)
    requires n <= |entries| && keeps(db)
    requires forall i, d :: 0 <= i < |entries| && keeps(d) ==>
               keeps(Meaning(entries[i].call.code, d, entries[i].call.mem).db)
    ensures keeps(Serial(db, entries, n))
  {
    if n > 0 { SerialKeeps(db, keeps, entries, n - 1); }
  }
}
