/**
 `withTransaction` and `withConnection` as the adapter writes them: nested asynchronous calls that
 update the connection and the chain's scope in place. The contracts tie what they do to `Meaning`,
 and say that every call gives the connection back as it found it: same transaction, same savepoints.
 */
module TransactionRunner {
  import opened Wrappers
  import opened SqliteTx

  class Adapter<!D, !M> {
    var conn: Conn<D>
    var scope: Scope

    constructor (db: D)
      ensures conn == Idle(db) && scope == Scope(false, 0)
    {
      conn := Idle(db);
      scope := Scope(false, 0);
    }

    ghost predicate Agrees()
      reads this
    {
      scope.inTransaction == conn.Open?
    }

    /** The same transaction (or none) is open, with the same savepoints and the same state on disk. */
    twostate predicate HandedBack()
      reads this
    {
      && Agrees()
      && conn.Open? == old(conn.Open?)
      && (conn.Open? ==> conn.committed == old(conn.committed) && conn.savepoints == old(conn.savepoints))
    }

    method Perform(code: Code<D, M>, mem: M) returns (ok: bool, out: M)
      requires Agrees()
      modifies this
      ensures HandedBack() && End(ok, conn.View(), out) == Meaning(code, old(conn.View()), mem)
      decreases code, 0
    {
      ok, out := true, mem;
      match code {
        case Statement(run) =>
          var (db, m) := run(conn.View(), mem);
          conn, out := conn.Write(db), m;
        case Throw(raise) =>
          ok, out := false, raise(mem);
        case Then(first, second) =>
          ok, out := Perform(first, mem);
          if ok { ok, out := Perform(second, out); }
        case If(test, yes, no) =>
          if test(mem) { ok, out := Perform(yes, mem); } else { ok, out := Perform(no, mem); }
        case ForEach(count, each) =>
          var left := count(mem);
          ghost var whole := Repeat(left, each, conn.View(), mem);
          while left > 0 && ok
            invariant HandedBack()
            invariant ok ==> whole == Repeat(left, each, conn.View(), out)
            invariant !ok ==> whole == End(false, conn.View(), out)
          {
            ok, out := Perform(each, out);
            left := left - 1;
          }
        case Catch(attempt, handler) =>
          ok, out := Perform(attempt, mem);
          if !ok { ok, out := Perform(handler, out); }
        case Transaction(fault, body) =>
          ok, out := WithTransaction(fault, body, mem);
        case Connection(body) =>
          ok, out := Perform(body, mem);
      }
    }

    method WithTransaction(fault: Fault<M>, body: Code<D, M>, mem: M) returns (ok: bool, out: M)
      requires Agrees()
      modifies this
      ensures HandedBack()
      ensures End(ok, conn.View(), out) == Meaning(Transaction(fault, body), old(conn.View()), mem)
      decreases body, 2
    {
      if scope.inTransaction {
        ok, out := Nested(fault, body, mem);
      } else {
        scope := scope.(inTransaction := true);
        ok, out := Outermost(fault, body, mem);
        scope := scope.(inTransaction := false);
      }
    }

    method Nested(fault: Fault<M>, body: Code<D, M>, mem: M) returns (ok: bool, out: M)
      requires Agrees() && conn.Open?
      modifies this
      ensures HandedBack()
      ensures End(ok, conn.View(), out) == Meaning(Transaction(fault, body), old(conn.View()), mem)
      decreases body, 1
    {
      scope := scope.(savepointCounter := scope.savepointCounter + 1);
      var name := scope.savepointCounter;
      if fault.OpenFails? { return false, fault.raise(mem); }
      conn := SetSavepoint(name, conn).value;
      ok, out := Perform(body, mem);
      if ok && fault.CloseFails? { ok, out := false, fault.raise(out); }
      if ok {
        conn := Release(name, conn).value;
      } else if conn.Open? {
        conn := RollbackTo(name, conn).value;
        conn := Release(name, conn).value;
      }
    }

    method Outermost(fault: Fault<M>, body: Code<D, M>, mem: M) returns (ok: bool, out: M)
      requires scope.inTransaction && conn.Idle?
      modifies this
      ensures scope.inTransaction && conn.Idle?
      ensures End(ok, conn.View(), out) == Meaning(Transaction(fault, body), old(conn.View()), mem)
      decreases body, 1
    {
      if fault.OpenFails? { return false, fault.raise(mem); }
      conn := Begin(conn).value;
      ok, out := Perform(body, mem);
      if ok && fault.CloseFails? { ok, out := false, fault.raise(out); }
      if ok {
        conn := Commit(conn).value;
      } else if conn.Open? {
        conn := Rollback(conn).value;
      }
    }
  }
}
