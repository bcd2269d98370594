/**
 `runOperation` over the catalog, and what holds of pending actions over every run of it: as a sequence of
 units of work, and then, through the connection lock, for every interleaving of concurrent calls.
 */
module Executor {
  import opened Wrappers
  import opened JsonText
  import opened Policy
  import opened Catalog
  import Tx = SqliteTx
  import Lock = ConnectionLock
  import Runner = TransactionRunner

  const PENDING_ACTION_TTL_MS := 7 * 24 * 60 * 60 * 1000

  datatype OpResult = Done(data: Returned) | PendingApproval(id: Text) | Refused(error: Error)

  /** One call: the operation's name, its raw input, who calls, the clock, and the next fresh id. */
  datatype Request = Request(name: Text, raw: Json, ctx: Context, now: int, newId: Text)

  // --- Units of work ----------------------------------------------------------

  /** The top-level transactions the executor opens. */
  datatype Unit<!B> =
    | Handle(kind: Kind<B>, ctx: Context, input: Input, now: int)
    | Create(row: PendingAction, newId: Text)
    | RecordRefusal(action: Text)

  /** INSERT of the request and its audit row; an id already taken violates the primary key. */
  function CreateBody<B>(row: PendingAction, newId: Text, f: Faults): Tx.Code<Crm<B>, Local> {
    Tx.Then(
      Tx.Statement((d: Crm<B>, m: Local) =>
        if newId in d.actions then (d, m) else (d.(actions := d.actions[newId := row]), m.(ran := true))),
      Tx.Then(Tx.If((m: Local) => m.ran, Nop(), Throw(Internal)),
              Tx.Then(Break(f.record), Record(Requested(newId)))))
  }

  function UnitBody<B>(ops: Ops<B>, unit: Unit<B>, f: Faults): Tx.Code<Crm<B>, Local> {
    match unit
    case Handle(kind, ctx, input, now) => HandlerBody(ops, kind, ctx, input, now, f)
    case Create(row, newId) => CreateBody(row, newId, f)
    case RecordRefusal(id) => Record(SelfApprovalRefused(id))
  }

  function UnitCode<B>(ops: Ops<B>, unit: Unit<B>, f: Faults): Tx.Code<Crm<B>, Local> {
    Atomic(if unit.RecordRefusal? then f.refusal else f.outer, UnitBody(ops, unit, f))
  }

  function UnitEnd<B>(ops: Ops<B>, unit: Unit<B>, f: Faults, d: Crm<B>): Tx.End<Crm<B>, Local> {
    Tx.Meaning(UnitCode(ops, unit, f), d, START)
  }

  lemma CreateMeans<B>(ops: Ops<B>, row: PendingAction, newId: Text, f: Faults, d: Crm<B>)
    ensures var e := UnitEnd(ops, Create(row, newId), f, d);
      && e.ok == (newId !in d.actions && !f.record && f.outer.NoMishap?)
      && (!e.ok ==> !e.mem.error.SelfApproval?)
      && e.db == if e.ok then d.(actions := d.actions[newId := row], audit := d.audit + [Requested(newId)]) else d
  {
    var body := CreateBody<B>(row, newId, f);
    AtomicMeans(f.outer, body, d, START);
    if newId !in d.actions {
      var d1 := d.(actions := d.actions[newId := row]);
      var m1 := START.(ran := true);
      assert body.Then? && Tx.Meaning(body.first, d, START) == Tx.End(true, d1, m1);
      assert Tx.Meaning(Record<B>(Requested(newId)), d1, m1) == Tx.End(true,
        d1.(audit := d1.audit + [Requested(newId)]), m1);
    }
  }

  lemma TargetMeans<B>(ops: Ops<B>, kind: Kind<B>, ctx: Context, j: Json, now: int, f: Faults, d: Crm<B>)
    requires kind.Target?
    ensures var t := kind.run(d, j); var e := UnitEnd(ops, Handle(kind, ctx, Payload(j), now), f, d);
      && e.ok == (t.ok && f.outer.NoMishap?) && e.db == (if e.ok then t.db else d)
      && (e.ok ==> e.mem.returned == Value(t.value))
      && (!e.ok ==> e.mem.error == if f.outer.NoMishap? || (f.outer.AtClose? && !t.ok) then OfTarget(t.value)
                                   else Internal)
  {
    var run := (d: Crm<B>, m: Local) => kind.run(d, j);
    var t := kind.run(d, j);
    var m1 := START.(ran := t.ok, value := t.value, error := OfTarget(t.value));
    var handler := RunHandler(run);
    assert handler.Then? && Tx.Meaning(handler.first, d, START) == Tx.End(true, t.db, m1);
    ThenMeans(handler, Return(false), d, START);
    AtomicMeans(f.outer, UnitBody(ops, Handle(kind, ctx, Payload(j), now), f), d, START);
  }

  // --- The executor --------------------------------------------------------------

  function RowFor(req: Request, risk: Risk, input: Json): PendingAction {
    PendingAction(req.name, input, risk, Pending, req.ctx.userId, req.ctx.clientId, req.now + PENDING_ACTION_TTL_MS,
      None, None, None)
  }

  function InputJson(input: Input): Json { if input.Payload? then input.j else Null }

  /** Validation, authorization, approval gate, execution; a refused self-approval is recorded afterwards. */
  function Execute<B>(ops: Ops<B>, req: Request, f: Faults, d: Crm<B>): (OpResult, Crm<B>) {
    if req.name !in ops then (Refused(NotFound), d)
    else
      var op := ops[req.name];
      var parsed := op.parse(req.raw);
      if parsed.None? then (Refused(Validation), d)
      else if !Authorized(op.terms, req.ctx) then (Refused(Forbidden), d)
      else if NeedsApproval(op.terms, req.ctx) then
        var e := UnitEnd(ops, Create(RowFor(req, op.terms.risk.value, InputJson(parsed.value)), req.newId), f, d);
        (if e.ok then PendingApproval(req.newId) else Refused(e.mem.error), e.db)
      else
        var e := UnitEnd(ops, Handle(op.kind, req.ctx, parsed.value, req.now), f, d);
        if e.ok then (ResultOf(e.mem.returned), e.db)
        else if e.mem.error.SelfApproval? then
          var r := UnitEnd(ops, RecordRefusal(e.mem.error.action), f, e.db);
          (Refused(if r.ok then e.mem.error else r.mem.error), r.db)
        else (Refused(e.mem.error), e.db)
  }

  function ResultOf(returned: Returned): OpResult {
    match returned
    case CommittedFailure(error) => Refused(OfTarget(error))
    case _ => Done(returned)
  }

  /** The executor as it runs on the adapter. */
  method RunOperation<B>(adapter: Runner.Adapter<Crm<B>, Local>, ops: Ops<B>, req: Request,
        f: Faults) returns (r: OpResult)
    requires adapter.Agrees() && adapter.conn.Idle?
    modifies adapter
    ensures adapter.Agrees() && adapter.conn.Idle?
    ensures (r, adapter.conn.View()) == Execute(ops, req, f, old(adapter.conn.View()))
  {
    if req.name !in ops { return Refused(NotFound); }
    var op := ops[req.name];
    var parsed := op.parse(req.raw);
    if parsed.None? { return Refused(Validation); }
    if !Authorized(op.terms, req.ctx) { return Refused(Forbidden); }
    if NeedsApproval(op.terms, req.ctx) {
      var ok, m := RunUnit(adapter, ops, Create(RowFor(req, op.terms.risk.value, InputJson(parsed.value)), req.newId),
        f);
      return if ok then PendingApproval(req.newId) else Refused(m.error);
    }
    var ok, m := RunUnit(adapter, ops, Handle(op.kind, req.ctx, parsed.value, req.now), f);
    if ok { return ResultOf(m.returned); }
    if m.error.SelfApproval? {
      var recorded, m' := RunUnit(adapter, ops, RecordRefusal(m.error.action), f);
      if !recorded { return Refused(m'.error); }
    }
    return Refused(m.error);
  }

  method RunUnit<B>(adapter: Runner.Adapter<Crm<B>, Local>, ops: Ops<B>, unit: Unit<B>, f: Faults) returns (ok: bool,
        m: Local)
    requires adapter.Agrees() && adapter.conn.Idle?
    modifies adapter
    ensures adapter.Agrees() && adapter.conn.Idle?
    ensures Tx.End(ok, adapter.conn.View(), m) == UnitEnd(ops, unit, f, old(adapter.conn.View()))
  {
    ok, m := adapter.Perform(UnitCode(ops, unit, f), START);
  }

  // --- Frame -----------------------------------------------------------------------

  /** The approve operation recorded that its target failed. */
  ghost predicate RecordedFailure<B>(ops: Ops<B>, req: Request, f: Faults, d: Crm<B>, d': Crm<B>) {
    && req.name in ops && ops[req.name].kind.Approve?
    && ops[req.name].parse(req.raw).Some? && ops[req.name].parse(req.raw).value.ForAction?
    && var ForAction(id, note) := ops[req.name].parse(req.raw).value;
    && Approvable(ops, req.ctx, id, req.now, d) && !TargetKept(ops, id, f, d)
    && d' == Decided(d, id, Failed, req.ctx, note, TargetResult(ops, id, f, d), RanFailed(id))
  }

  /** An agent tried to approve its own request. */
  ghost predicate AuditedRefusal<B>(ops: Ops<B>, req: Request, d: Crm<B>, d': Crm<B>) {
    && req.name in ops && ops[req.name].kind.Approve?
    && ops[req.name].parse(req.raw).Some? && ops[req.name].parse(req.raw).value.ForAction?
    && var id := ops[req.name].parse(req.raw).value.id;
    && id in d.actions && d.actions[id].status.Pending? && OwnAgentRequest(req.ctx, d.actions[id])
    && d' == d.(audit := d.audit + [SelfApprovalRefused(id)])
  }

  /** What a successful direct run of an operation leaves. */
  ghost predicate HandlerWrites<B>(ops: Ops<B>, req: Request, f: Faults, d: Crm<B>, data: Returned, d': Crm<B>)
    requires req.name in ops && ops[req.name].parse(req.raw).Some?
  {
    var op := ops[req.name];
    match (op.kind, op.parse(req.raw).value)
    case (Target(run), Payload(j)) => data.Value? && run(d, j) == HandlerEnd(true, d', data.j)
    case (Approve, ForAction(id, note)) =>
      data.Value? && Approvable(ops, req.ctx, id, req.now, d) && TargetKept(ops, id, f, d) &&
        id in TargetEnd(ops, id, d).db.actions &&
      d' == Decided(TargetEnd(ops, id, d).db, id, Approved, req.ctx, note, data.j, RanApproved(id))
    case (kind, ForAction(id, note)) =>
      Answers(kind, req.ctx, id, d) && id in d'.actions && data == Shown(d'.actions[id]) &&
      d' == if Settles(kind, req.ctx, id, req.now, d) then Settled(kind, req.ctx, id, note, d) else d
    case _ => false
  }

  lemma HandleMeans<B(!new)>(ops: Ops<B>, req: Request, f: Faults, d: Crm<B>)
    requires WellFormed(ops) && req.name in ops && ops[req.name].parse(req.raw).Some?
    ensures var op := ops[req.name]; var input := op.parse(req.raw).value;
      var e := UnitEnd(ops, Handle(op.kind, req.ctx, input, req.now), f, d);
      && (!e.ok ==> e.db == d)
      && (!e.ok && e.mem.error.SelfApproval? ==>
            AuditedRefusal(ops, req, d, d.(audit := d.audit + [SelfApprovalRefused(e.mem.error.action)])))
      && (e.ok && ResultOf(e.mem.returned).Done? ==> HandlerWrites(ops, req, f, d, ResultOf(e.mem.returned).data, e.db))
      && (e.ok && !ResultOf(e.mem.returned).Done? ==> RecordedFailure(ops, req, f, d, e.db))
  {
    var op := ops[req.name];
    match (op.kind, op.parse(req.raw).value)
    case (Target(run), Payload(j)) => TargetMeans(ops, op.kind, req.ctx, j, req.now, f, d);
    case (Approve, ForAction(id, note)) => ApproveMeans(ops, req.ctx, id, note, req.now, f, d);
    case (kind, ForAction(id, note)) =>
      SmallReviewMeans(ops, kind, req.ctx, id, note, req.now, f, d);
      AtomicMeans(f.outer, HandlerBody(ops, kind, req.ctx, ForAction(id, note), req.now, f), d, START);
  }

  lemma RefusalMeans<B>(ops: Ops<B>, id: Text, f: Faults, d: Crm<B>)
    ensures var e := UnitEnd(ops, RecordRefusal(id), f, d);
      e.ok == f.refusal.NoMishap? && e.db == if e.ok then d.(audit := d.audit + [SelfApprovalRefused(id)]) else d
  {
    AtomicMeans(f.refusal, Record(SelfApprovalRefused(id)), d, START);
  }

  /** The row that waits for approval: who asks for what, with which input and risk, and for how long. */
  ghost predicate Waits<B>(ops: Ops<B>, req: Request, row: PendingAction)
    requires req.name in ops
  {
    && row.operation == req.name && row.status.Pending?
    && ops[req.name].parse(req.raw) == Some(Payload(row.input)) && ops[req.name].terms.risk == Some(row.risk)
    && row.requestedByUser == req.ctx.userId && row.requestedByClient == req.ctx.clientId
    && row.expiresAt == req.now + 604_800_000
    && row.reviewedBy.None? && row.note.None? && row.result.None?
  }

  /**
   The executor's frame, for every catalog, caller, input, handler and fault. `Done` means the caller had
   the authority and exactly the handler's writes are in. `PendingApproval` means an agent's risky call left
   exactly one pending row and one audit row. A refusal means nothing changed, except that a failed approval
   stays recorded and an agent approving its own request leaves an audit row.
   */
  lemma ExecutorFrame<B(!new)>(ops: Ops<B>, req: Request, f: Faults, d: Crm<B>)
    requires WellFormed(ops)
    ensures var (r, d') := Execute(ops, req, f, d);
      match r
      case Done(data) =>
        && req.name in ops && ops[req.name].parse(req.raw).Some?
        && Authorized(ops[req.name].terms, req.ctx) && !NeedsApproval(ops[req.name].terms, req.ctx)
        && HandlerWrites(ops, req, f, d, data, d')
      case PendingApproval(id) =>
        && req.name in ops && Authorized(ops[req.name].terms, req.ctx) && NeedsApproval(ops[req.name].terms, req.ctx)
        && id == req.newId && id !in d.actions && id in d'.actions && Waits(ops, req, d'.actions[id])
        && d' == d.(actions := d.actions[id := d'.actions[id]], audit := d.audit + [Requested(id)])
      case Refused(_) =>
        d' == d || RecordedFailure(ops, req, f, d, d') || AuditedRefusal(ops, req, d, d')
  {
    if req.name in ops && ops[req.name].parse(req.raw).Some? && Authorized(ops[req.name].terms, req.ctx) {
      var op := ops[req.name];
      if NeedsApproval(op.terms, req.ctx) {
        CreateMeans(ops, RowFor(req, op.terms.risk.value, InputJson(op.parse(req.raw).value)), req.newId, f, d);
      } else {
        HandleMeans(ops, req, f, d);
        var e := UnitEnd(ops, Handle(op.kind, req.ctx, op.parse(req.raw).value, req.now), f, d);
        if !e.ok && e.mem.error.SelfApproval? { RefusalMeans(ops, e.mem.error.action, f, d); }
      }
    }
  }

  // --- Over every run ------------------------------------------------------------------

  ghost predicate Fits<B>(unit: Unit<B>) {
    unit.Handle? ==> if unit.kind.Target? then unit.input.Payload? else unit.input.ForAction?
  }

  /** States before and after each unit of work. */
  ghost predicate Units<B>(ops: Ops<B>, units: seq<Unit<B>>, fs: seq<Faults>, ds: seq<Crm<B>>) {
    && |units| == |fs| && |ds| == |units| + 1
    && forall k {:trigger units[k]} :: 0 <= k < |units| ==>
          Fits(units[k]) && ds[k + 1] == UnitEnd(ops, units[k], fs[k], ds[k]).db
  }

  ghost predicate IsSettled<B>(d: Crm<B>, id: Text) { id in d.actions && !d.actions[id].status.Pending? }

  /** No unit of work touches an action that has left `pending`. */
  lemma UnitKeepsSettled<B(!new)>(ops: Ops<B>, unit: Unit<B>, f: Faults, d: Crm<B>, id: Text)
    requires WellFormed(ops) && Fits(unit) &&
      (unit.Handle? && unit.kind.Target? ==> forall d, j :: unit.kind.run(d, j).db.actions == d.actions)
    requires IsSettled(d, id)
    ensures var d' := UnitEnd(ops, unit, f, d).db; IsSettled(d', id) && d'.actions[id] == d.actions[id]
  {
    match unit
    case Create(row, newId) => CreateMeans(ops, row, newId, f, d);
    case RecordRefusal(action) => RefusalMeans(ops, action, f, d);
    case Handle(Target(run), ctx, Payload(j), now) => TargetMeans(ops, unit.kind, ctx, j, now, f, d);
    case Handle(Approve, ctx, ForAction(other, note), now) =>
      ApproveMeans(ops, ctx, other, note, now, f, d);
      if other in d.actions { StoredKeepsActions(ops, other, d); }
    case Handle(kind, ctx, ForAction(other, note), now) =>
      SmallReviewMeans(ops, kind, ctx, other, note, now, f, d);
      AtomicMeans(f.outer, HandlerBody(ops, kind, ctx, ForAction(other, note), now, f), d, START);
    case _ =>
  }

  /** The handlers that run directly are as well behaved as the catalog's. */
  ghost predicate Behaved<B(!new)>(units: seq<Unit<B>>) {
    forall k :: 0 <= k < |units| && units[k].Handle? && units[k].kind.Target? ==>
      forall d, j :: units[k].kind.run(d, j).db.actions == d.actions
  }

  /** A pending action leaves `pending` at most once: its row is final from then on. */
  lemma {:induction false} SettledForever<B(!new)>(
      ops: Ops<B>, units: seq<Unit<B>>, fs: seq<Faults>, ds: seq<Crm<B>>, j: nat, k: nat, id: Text)
    requires WellFormed(ops) && Behaved(units) && Units(ops, units, fs, ds) && j <= k < |ds| && IsSettled(ds[j], id)
    ensures IsSettled(ds[k], id) && ds[k].actions[id] == ds[j].actions[id]
    decreases |ds| - j
  {
    if j < k {
      UnitKeepsSettled(ops, units[j], fs[j], ds[j], id);
      SettledForever(ops, units, fs, ds, j + 1, k, id);
    }
  }

  /** The unit is an approval of `id` that commits, one way or the other. */
  ghost predicate CommitsApproval<B>(ops: Ops<B>, unit: Unit<B>, f: Faults, d: Crm<B>, id: Text) {
    unit.Handle? && unit.kind.Approve? && unit.input.ForAction? && unit.input.id == id && UnitEnd(ops, unit, f, d).ok
  }

  /**
   What one unit makes of a pending action: it ends up approved exactly if the unit is an approval of it that commits
   with the target's writes, and failed exactly if it is one that commits without them.
   */
  lemma UnitDecides<B(!new)>(ops: Ops<B>, unit: Unit<B>, f: Faults, d: Crm<B>, id: Text)
    requires WellFormed(ops) && Fits(unit) &&
      (unit.Handle? && unit.kind.Target? ==> forall d, j :: unit.kind.run(d, j).db.actions == d.actions)
    requires id in d.actions && d.actions[id].status.Pending?
    ensures var d' := UnitEnd(ops, unit, f, d).db;
      && id in d'.actions
      && (d'.actions[id].status.Approved? <==> CommitsApproval(ops, unit, f, d, id) && TargetKept(ops, id, f, d))
      && (d'.actions[id].status.Failed? <==> CommitsApproval(ops, unit, f, d, id) && !TargetKept(ops, id, f, d))
  {
    match unit
    case Create(row, newId) => CreateMeans(ops, row, newId, f, d);
    case RecordRefusal(action) => RefusalMeans(ops, action, f, d);
    case Handle(Target(run), ctx, Payload(j), now) => TargetMeans(ops, unit.kind, ctx, j, now, f, d);
    case Handle(Approve, ctx, ForAction(other, note), now) =>
      ApproveMeans(ops, ctx, other, note, now, f, d);
      if other in d.actions { StoredKeepsActions(ops, other, d); }
    case Handle(kind, ctx, ForAction(other, note), now) =>
      SmallReviewMeans(ops, kind, ctx, other, note, now, f, d);
      AtomicMeans(f.outer, HandlerBody(ops, kind, ctx, ForAction(other, note), now, f), d, START);
    case _ =>
  }

  /** Unit `n` of the run is an approval of `id` that commits, with the target's writes or without. */
  ghost predicate DecidesAt<B>(
      ops: Ops<B>, units: seq<Unit<B>>, fs: seq<Faults>, ds: seq<Crm<B>>, n: nat, id: Text, kept: bool) {
    && n < |units| == |fs| && n < |ds| && id in ds[n].actions
    && CommitsApproval(ops, units[n], fs[n], ds[n], id) && TargetKept(ops, id, fs[n], ds[n]) == kept
  }

  lemma RunDecides<B(!new)>(ops: Ops<B>, units: seq<Unit<B>>, fs: seq<Faults>, ds: seq<Crm<B>>, n: nat, id: Text)
    requires WellFormed(ops) && Behaved(units) && Units(ops, units, fs, ds) && n < |units|
    requires id in ds[n].actions && ds[n].actions[id].status.Pending?
    ensures id in ds[n + 1].actions
    ensures ds[n + 1].actions[id].status.Approved? <==> DecidesAt(ops, units, fs, ds, n, id, true)
    ensures ds[n + 1].actions[id].status.Failed? <==> DecidesAt(ops, units, fs, ds, n, id, false)
  {
    UnitDecides(ops, units[n], fs[n], ds[n], id);
  }

  /** An action found approved or failed, and pending before, was approved by a unit in between. */
  lemma {:induction false} TracedBack<B(!new)>(
      ops: Ops<B>, units: seq<Unit<B>>, fs: seq<Faults>, ds: seq<Crm<B>>, j: nat, k: nat, id: Text) returns (n: nat)
    requires WellFormed(ops) && Behaved(units) && Units(ops, units, fs, ds) && j <= k < |ds|
    requires id in ds[j].actions && ds[j].actions[id].status.Pending?
    requires id in ds[k].actions && (ds[k].actions[id].status.Approved? || ds[k].actions[id].status.Failed?)
    ensures j <= n < k && DecidesAt(ops, units, fs, ds, n, id, ds[k].actions[id].status.Approved?)
    decreases |ds| - j
  {
    RunDecides(ops, units, fs, ds, j, id);
    if ds[j + 1].actions[id].status.Pending? {
      n := TracedBack(ops, units, fs, ds, j + 1, k, id);
    } else {
      n := j;
      SettledForever(ops, units, fs, ds, j + 1, k, id);
    }
  }

  /**
   What a committed approval has done: the action was pending, unexpired and not the agent's own, and is now approved
   on top of the target's writes, or failed with the database as before but for the record of the failure.
   */
  ghost predicate Concluded<B>(ops: Ops<B>, unit: Unit<B>, f: Faults, d: Crm<B>, id: Text, d': Crm<B>) {
    && unit.Handle? && unit.input.ForAction? && Approvable(ops, unit.ctx, id, unit.now, d)
    && var (value, written) := (TargetResult(ops, id, f, d), TargetEnd(ops, id, d).db);
    && (TargetKept(ops, id, f, d) ==>
          id in written.actions &&
          d' == Decided(written, id, Approved, unit.ctx, unit.input.note, value, RanApproved(id)))
    && (!TargetKept(ops, id, f, d) ==>
          d' == Decided(d, id, Failed, unit.ctx, unit.input.note, value, RanFailed(id)))
  }

  lemma ApprovalConcludes<B(!new)>(ops: Ops<B>, unit: Unit<B>, f: Faults, d: Crm<B>, id: Text)
    requires WellFormed(ops) && CommitsApproval(ops, unit, f, d, id)
    ensures Concluded(ops, unit, f, d, id, UnitEnd(ops, unit, f, d).db) && IsSettled(UnitEnd(ops, unit, f, d).db, id)
  {
    ApproveMeans(ops, unit.ctx, id, unit.input.note, unit.now, f, d);
  }

  /**
   In any run a stored operation takes effect at most once: of all approvals of one action at most one
   commits, and that one concludes it.
   */
  lemma ApprovedAtMostOnce<B(!new)>(
      ops: Ops<B>, units: seq<Unit<B>>, fs: seq<Faults>, ds: seq<Crm<B>>, j: nat, k: nat, id: Text)
    requires WellFormed(ops) && Behaved(units) && Units(ops, units, fs, ds) && j < |units| && k < |units|
    requires CommitsApproval(ops, units[j], fs[j], ds[j], id)
    ensures Concluded(ops, units[j], fs[j], ds[j], id, ds[j + 1])
    ensures j < k ==> !CommitsApproval(ops, units[k], fs[k], ds[k], id)
  {
    ApprovalConcludes(ops, units[j], fs[j], ds[j], id);
    if j < k && CommitsApproval(ops, units[k], fs[k], ds[k], id) {
      SettledForever(ops, units, fs, ds, j + 1, k, id);
      ApprovalConcludes(ops, units[k], fs[k], ds[k], id);
      assert false;
    }
  }

  /**
   Over every run, from any point at which an action is pending: it is found approved exactly when an approval of it
   has committed with its target's writes since then, and failed exactly when one has committed without them.
   */
  lemma StatusTellsWhatHappened<B(!new)>(
      ops: Ops<B>, units: seq<Unit<B>>, fs: seq<Faults>, ds: seq<Crm<B>>, j: nat, k: nat, id: Text)
    requires WellFormed(ops) && Behaved(units) && Units(ops, units, fs, ds) && j <= k < |ds|
    requires id in ds[j].actions && ds[j].actions[id].status.Pending?
    ensures (id in ds[k].actions && ds[k].actions[id].status.Approved?) <==>
      exists n: nat :: j <= n < k && DecidesAt(ops, units, fs, ds, n, id, true)
    ensures (id in ds[k].actions && ds[k].actions[id].status.Failed?) <==>
      exists n: nat :: j <= n < k && DecidesAt(ops, units, fs, ds, n, id, false)
  {
    if id in ds[k].actions && (ds[k].actions[id].status.Approved? || ds[k].actions[id].status.Failed?) {
      var n := TracedBack(ops, units, fs, ds, j, k, id);
    }
    forall n: nat, kept: bool | j <= n < k && DecidesAt(ops, units, fs, ds, n, id, kept)
      ensures id in ds[k].actions && ds[k].actions[id].status == if kept then Approved else Failed
    {
      DecisionStays(ops, units, fs, ds, n, k, id, kept);
    }
  }

  lemma DecisionStays<B(!new)>(
      ops: Ops<B>, units: seq<Unit<B>>, fs: seq<Faults>, ds: seq<Crm<B>>, n: nat, k: nat, id: Text, kept: bool)
    requires WellFormed(ops) && Behaved(units) && Units(ops, units, fs, ds) && n < k < |ds|
    requires DecidesAt(ops, units, fs, ds, n, id, kept)
    ensures id in ds[k].actions && ds[k].actions[id].status == if kept then Approved else Failed
  {
    ApprovedAtMostOnce(ops, units, fs, ds, n, n, id);
    SettledForever(ops, units, fs, ds, n + 1, k, id);
  }

  // --- Under every interleaving ------------------------------------------------------------

  ghost predicate AllUnits<B>(ops: Ops<B>, entries: seq<Lock.Entry<Crm<B>, Local>>, units: seq<Unit<B>>,
        fs: seq<Faults>) {
    && |units| == |entries| && |fs| == |entries|
    && forall i :: 0 <= i < |entries| ==>
          Fits(units[i]) && entries[i].call == Lock.Call(UnitCode(ops, units[i], fs[i]), START)
  }

  ghost function SerialStates<B>(db: Crm<B>, entries: seq<Lock.Entry<Crm<B>, Local>>, n: nat): (ds: seq<Crm<B>>)
    requires n <= |entries|
    ensures |ds| == n + 1 && forall k :: 0 <= k <= n ==> ds[k] == Lock.Serial(db, entries, k)
  {
    if n == 0 then [Lock.Serial(db, entries, 0)] else SerialStates(db, entries, n - 1) + [Lock.Serial(db, entries, n)]
  }

  /**
   Concurrent calls change nothing about this: in every reachable state of the connection in which no call
   is at work, the committed database is the last state of a run of units of work, in grant order. So
   `SettledForever` and `ApprovedAtMostOnce` hold of every interleaving.
   */
  lemma InterleavingsAreRuns<B(!new)>(
      ops: Ops<B>, db: Crm<B>, trace: seq<Lock.Sys<Crm<B>, Local>>, k: nat, units: seq<Unit<B>>, fs: seq<Faults>)
    requires Lock.History(db, trace) && k < |trace| && AllUnits(ops, trace[k].entries, units, fs)
    requires forall i :: 0 <= i < |trace[k].entries| ==> !trace[k].entries[i].phase.Holding?
    ensures var r := |trace[k].resolved|;
      && r <= |units| && trace[k].conn.Idle?
      && var ds := SerialStates(db, trace[k].entries, r);
      && Units(ops, units[..r], fs[..r], ds) && ds[0] == db && ds[r] == trace[k].conn.committed
  {
    Lock.SerialEquivalence(db, trace, k);
    Lock.Reachable(db, trace, k);
    Lock.Exclusive(db, trace, k);
    var entries := trace[k].entries;
    var r := |trace[k].resolved|;
    forall n | 0 <= n < r ensures Lock.Serial(db, entries, n + 1) == UnitEnd(ops, units[n], fs[n],
      Lock.Serial(db, entries, n)).db {
      assert entries[n].call == Lock.Call(UnitCode(ops, units[n], fs[n]), START);
    }
  }
}
