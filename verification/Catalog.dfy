/**
 The operation executor: validation, authorization, the approval gate and execution, each modifying
 operation in one transaction; and the review of pending actions, where approval re-runs the stored
 operation in a nested transaction whose failure is recorded but not passed on.

 Bodies are `SqliteTx` code, so their effect is the meaning of the transactions they open. What a target
 operation does is an arbitrary state transformer that keeps its hands off the pending-action table.
 */
module Catalog {
  import opened Wrappers
  import opened JsonText
  import opened Policy
  import Tx = SqliteTx

  // --- Data -------------------------------------------------------------------

  datatype Status = Pending | Approved | Failed | Rejected | Cancelled

  datatype PendingAction = PendingAction(
    operation: Text, input: Json, risk: Risk, status: Status,
    requestedByUser: Option<Text>, requestedByClient: Option<Text>, expiresAt: int,
    reviewedBy: Option<Text>, note: Option<Text>, result: Option<Json>)

  datatype AuditEvent =
    | Requested(action: Text)
    | RanApproved(action: Text)
    | RanFailed(action: Text)
    | SelfApprovalRefused(action: Text)
    | WasRejected(action: Text)
    | WasCancelled(action: Text)
    | WasExpired(action: Text)
    | OfHandler(event: Json)

  /** `biz` is every table but these two. */
  datatype Crm<B> = Crm(biz: B, actions: map<Text, PendingAction>, audit: seq<AuditEvent>)

  datatype Error = NotFound | Validation | Forbidden | Internal | SelfApproval(action: Text) | OfTarget(payload: Json)

  /** How a handler leaves the database, and what it returned or threw. */
  datatype HandlerEnd<B> = HandlerEnd(ok: bool, db: Crm<B>, value: Json)

  datatype Input = ForAction(id: Text, note: Option<Text>) | Payload(j: Json)

  datatype Kind<!B> =
    | Target(run: (Crm<B>, Json) -> HandlerEnd<B>)
    | Approve
    | Reject
    | Cancel
    | CancelOwn
    | GetOwn

  datatype OpDef<!B> = OpDef(terms: Terms, parse: Json -> Option<Input>, kind: Kind<B>)

  type Ops<!B> = map<Text, OpDef<B>>

  /** Target handlers leave the pending actions alone; review operations take an action id and carry no risk. */
  ghost predicate WellFormed<B(!new)>(ops: Ops<B>) {
    forall name :: name in ops ==>
      && (ops[name].kind.Target? ==> forall d, j :: ops[name].kind.run(d, j).db.actions == d.actions)
      && (!ops[name].kind.Target? ==> ops[name].terms.risk.None?)
      && (!ops[name].kind.Target? ==>
            forall raw :: ops[name].parse(raw).Some? ==> ops[name].parse(raw).value.ForAction?)
      && (ops[name].kind.Target? ==> forall raw :: ops[name].parse(raw).Some? ==> ops[name].parse(raw).value.Payload?)
  }

  datatype Returned = Nothing | Value(j: Json) | Shown(action: PendingAction) | CommittedFailure(error: Json)

  /** The handler's own variables. */
  datatype Local = Local(found: Option<PendingAction>, ran: bool, value: Json, error: Error, returned: Returned)

  /** The review note of an expiry. */
  const EXPIRED: Text := [0x65, 0x78, 0x70, 0x69, 0x72, 0x65, 0x64]

  const START := Local(None, false, Null, Internal, Nothing)

  // --- Handler bodies -------------------------------------------------------------

  /** How the environment may break a transaction: when it opens or when it closes. */
  datatype Mishap = NoMishap | AtOpen | AtClose

  /** What it may break: the three transactions, and the write after a status change. */
  datatype Faults = Faults(outer: Mishap, nested: Mishap, record: bool, refusal: Mishap)

  function Nop<B>(): Tx.Code<Crm<B>, Local> { Tx.Statement((d: Crm<B>, m: Local) => (d, m)) }

  function Throw<B>(error: Error): Tx.Code<Crm<B>, Local> { Tx.Throw((m: Local) => m.(error := error)) }

  function ThrowIf<B>(test: Local -> bool, error: Error): Tx.Code<Crm<B>, Local> {
    Tx.If(test, Throw(error), Nop())
  }

  function Break<B>(here: bool): Tx.Code<Crm<B>, Local> { if here then Throw(Internal) else Nop() }

  function Broken(m: Local): Local { m.(error := Internal, value := Null) }

  function Atomic<B>(mishap: Mishap, body: Tx.Code<Crm<B>, Local>): Tx.Code<Crm<B>, Local> {
    Tx.Transaction(match mishap
                   case NoMishap => Tx.Clean
                   case AtOpen => Tx.OpenFails((m: Local) => Broken(m))
                   case AtClose => Tx.CloseFails((m: Local) => Broken(m)), body)
  }

  /** What is known of a target's end after its transaction: nothing if that did not open, or closed badly. */
  function Told<B>(mishap: Mishap, t: HandlerEnd<B>): Json {
    if mishap.AtOpen? || (t.ok && mishap.AtClose?) then Null else t.value
  }

  function Record<B>(event: AuditEvent): Tx.Code<Crm<B>, Local> {
    Tx.Statement((d: Crm<B>, m: Local) => (d.(audit := d.audit + [event]), m))
  }

  function Load<B>(id: Text): Tx.Code<Crm<B>, Local> {
    Tx.Statement((d: Crm<B>, m: Local) => (d, m.(found := if id in d.actions then Some(d.actions[id]) else None)))
  }

  function Reviewed(pa: PendingAction, status: Status, reviewer: Option<Text>, note: Option<Text>,
        result: Option<Json>): PendingAction {
    pa.(status := status, reviewedBy := reviewer, note := note, result := result)
  }

  /** UPDATE of the one row, whatever its status; the outcome of the target decides what is stored. */
  function SetStatus<B>(id: Text, status: Status, reviewer: Option<Text>, note: Option<Text>): Tx.Code<Crm<B>, Local> {
    Tx.Statement((d: Crm<B>, m: Local) =>
      if id in d.actions
      then (d.(actions := d.actions[id := Reviewed(d.actions[id], status, reviewer, note, Some(m.value))]), m)
      else (d, m))
  }

  /** UPDATE ... WHERE status = 'pending'; remembers whether it hit. */
  function TransitionIfPending<B>(id: Text, status: Status, reviewer: Option<Text>, note: Option<Text>): Tx.Code<Crm<B>,
        Local> {
    Tx.Statement((d: Crm<B>, m: Local) =>
      if id in d.actions && d.actions[id].status.Pending?
      then (d.(actions := d.actions[id := Reviewed(d.actions[id], status, reviewer, note, None)]), m.(ran := true))
      else (d, m.(ran := false)))
  }

  function Return<B>(failed: bool): Tx.Code<Crm<B>, Local> {
    Tx.Statement((d: Crm<B>, m: Local) =>
      (d, m.(returned := if failed then CommittedFailure(m.value) else Value(m.value))))
  }

  /** Runs an operation's handler; one that throws may have written already. */
  function RunHandler<B>(run: (Crm<B>, Local) -> HandlerEnd<B>): Tx.Code<Crm<B>, Local> {
    Tx.Then(
      Tx.Statement((d: Crm<B>, m: Local) => var e := run(d, m);
        (e.db, m.(ran := e.ok, value := e.value, error := OfTarget(e.value)))),
      Tx.If((m: Local) => m.ran, Nop(), Tx.Throw((m: Local) => m)))
  }

  /** The stored operation with its stored input; a stored input that no longer parses throws. */
  function Stored<B>(ops: Ops<B>, d: Crm<B>, m: Local): HandlerEnd<B> {
    if m.found.None? || m.found.value.operation !in ops then HandlerEnd(false, d, Null)
    else
      var op := ops[m.found.value.operation];
      match op.parse(m.found.value.input)
      case Some(Payload(j)) => if op.kind.Target? then op.kind.run(d, j) else HandlerEnd(false, d, Null)
      case _ => HandlerEnd(false, d, Null)
  }

  predicate OwnAgentRequest(ctx: Context, pa: PendingAction) {
    ctx.actor.Agent? && pa.requestedByClient.Some? && pa.requestedByClient == ctx.clientId
  }

  /** Once the checks have passed: run the stored operation on its own, then record how it went. */
  function ApproveRun<B>(ops: Ops<B>, ctx: Context, id: Text, note: Option<Text>, f: Faults): Tx.Code<Crm<B>, Local> {
    Tx.Then(
      Tx.Catch(Atomic(f.nested, RunHandler((d, m) => Stored(ops, d, m))),
               Tx.Statement((d: Crm<B>, m: Local) => (d, m.(ran := false)))),
      Tx.If((m: Local) => m.ran,
            Conclude(id, Approved, ctx.userId, note, f, RanApproved(id), false),
            Conclude(id, Failed, ctx.userId, note, f, RanFailed(id), true)))
  }

  function Conclude<B>(id: Text, status: Status, reviewer: Option<Text>, note: Option<Text>, f: Faults,
        event: AuditEvent, failed: bool):
    Tx.Code<Crm<B>, Local>
  {
    Tx.Then(SetStatus(id, status, reviewer, note), Tx.Then(Break(f.record), Tx.Then(Record(event), Return(failed))))
  }

  function ApproveBody<B>(ops: Ops<B>, ctx: Context, id: Text, note: Option<Text>, now: int, f: Faults): Tx.Code<Crm<B>,
        Local> {
    Tx.Then(Load(id),
    Tx.Then(ThrowIf((m: Local) => m.found.None?, NotFound),
    Tx.Then(ThrowIf((m: Local) => m.found.Some? && !m.found.value.status.Pending?, Validation),
    Tx.Then(ThrowIf((m: Local) => m.found.Some? && OwnAgentRequest(ctx, m.found.value), SelfApproval(id)),
    Tx.Then(Tx.If((m: Local) => m.found.Some? && m.found.value.expiresAt < now,
                  Tx.Then(SetStatus(id, Cancelled, None, Some(EXPIRED)), Throw(Validation)), Nop()),
    Tx.Then(ThrowIf((m: Local) => m.found.Some? && m.found.value.operation !in ops, Validation),
            ApproveRun(ops, ctx, id, note, f)))))))
  }

  // --- What approval does ---------------------------------------------------------

  ghost predicate Approvable<B>(ops: Ops<B>, ctx: Context, id: Text, now: int, d: Crm<B>) {
    && id in d.actions && d.actions[id].status.Pending?
    && !OwnAgentRequest(ctx, d.actions[id]) && d.actions[id].expiresAt >= now && d.actions[id].operation in ops
  }

  ghost function TargetEnd<B>(ops: Ops<B>, id: Text, d: Crm<B>): HandlerEnd<B>
    requires id in d.actions
  {
    Stored(ops, d, START.(found := Some(d.actions[id])))
  }

  ghost function Decided<B>(d: Crm<B>, id: Text, status: Status, ctx: Context, note: Option<Text>, value: Json,
        event: AuditEvent):
    Crm<B>
    requires id in d.actions
  {
    d.(actions := d.actions[id := Reviewed(d.actions[id], status, ctx.userId, note, Some(value))],
      audit := d.audit + [event])
  }

  lemma ConcludeMeans<B>(id: Text, status: Status, ctx: Context, note: Option<Text>, f: Faults, event: AuditEvent,
        failed: bool, d: Crm<B>, m: Local)
    requires id in d.actions
    ensures var e := Tx.Meaning(Conclude(id, status, ctx.userId, note, f, event, failed), d, m);
      && e.ok == !f.record
      && (e.ok ==> e.db == Decided(d, id, status, ctx, note, m.value, event) &&
                   e.mem.returned == (if failed then CommittedFailure(m.value) else Value(m.value)))
      && (!e.ok ==> e.mem.error == Internal)
  {
    var d1 := d.(actions := d.actions[id := Reviewed(d.actions[id], status, ctx.userId, note, Some(m.value))]);
    assert Tx.Meaning(SetStatus(id, status, ctx.userId, note), d, m) == Tx.End(true, d1, m);
    assert Tx.Meaning(Record(event), d1, m) == Tx.End(true, d1.(audit := d1.audit + [event]), m);
  }

  /** The nested transaction keeps the target's writes exactly when the target and its RELEASE succeed. */
  lemma NestedMeans<B>(ops: Ops<B>, f: Faults, d: Crm<B>, m: Local)
    ensures var t := Stored(ops, d, m);
      var e := Tx.Meaning(Atomic(f.nested, RunHandler((d, m) => Stored(ops, d, m))), d, m);
      && e.ok == (t.ok && f.nested.NoMishap?)
      && e.db == (if e.ok then t.db else d)
      && e.mem.found == m.found && e.mem.value == Told(f.nested, t) && (e.ok ==> e.mem.ran)
  {
    var run := (d: Crm<B>, m: Local) => Stored(ops, d, m);
    var t := run(d, m);
    var m1 := m.(ran := t.ok, value := t.value, error := OfTarget(t.value));
    var first := Tx.Statement((d: Crm<B>, m: Local) => var e := run(d, m);
      (e.db, m.(ran := e.ok, value := e.value, error := OfTarget(e.value))));
    assert Tx.Meaning(first, d, m) == Tx.End(true, t.db, m1);
  }

  lemma ApproveRunMeans<B>(ops: Ops<B>, ctx: Context, id: Text, note: Option<Text>, f: Faults, d: Crm<B>, m: Local)
    requires id in d.actions && m == START.(found := Some(d.actions[id]))
    requires TargetEnd(ops, id, d).db.actions == d.actions
    ensures var t := TargetEnd(ops, id, d); var ran := t.ok && f.nested.NoMishap?; var value := Told(f.nested, t);
      var e := Tx.Meaning(ApproveRun(ops, ctx, id, note, f), d, m);
      && e.ok == !f.record
      && (e.ok && ran ==>
            e.db == Decided(t.db, id, Approved, ctx, note, value, RanApproved(id)) && e.mem.returned == Value(value))
      && (e.ok && !ran ==>
            e.db == Decided(d, id, Failed, ctx, note, value, RanFailed(id)) &&
            e.mem.returned == CommittedFailure(value))
      && (!e.ok ==> e.mem.error == Internal)
  {
    NestedMeans(ops, f, d, m);
    var t := TargetEnd(ops, id, d);
    var attempt := Atomic(f.nested, RunHandler((d, m) => Stored(ops, d, m)));
    var handler := Tx.Statement((d: Crm<B>, m: Local) => (d, m.(ran := false)));
    var a := Tx.Meaning(attempt, d, m);
    var c := Tx.Meaning(Tx.Catch(attempt, handler), d, m);
    assert c == if a.ok then a else Tx.End(true, d, a.mem.(ran := false));
    if a.ok {
      ConcludeMeans(id, Approved, ctx, note, f, RanApproved(id), false, c.db, c.mem);
    } else {
      ConcludeMeans(id, Failed, ctx, note, f, RanFailed(id), true, c.db, c.mem);
    }
  }

  lemma CheckMeans<B>(test: Local -> bool, error: Error, d: Crm<B>, m: Local)
    ensures Tx.Meaning(ThrowIf(test, error), d, m) == if test(m) then Tx.End(false, d, m.(error := error))
      else Tx.End(true, d, m)
  {
  }

  /** A body rejects as soon as its first part does, and otherwise does what its rest does from there. */
  lemma ThenMeans<B>(first: Tx.Code<Crm<B>, Local>, second: Tx.Code<Crm<B>, Local>, d: Crm<B>, m: Local)
    ensures var e := Tx.Meaning(first, d, m);
      Tx.Meaning(Tx.Then(first, second), d, m) == if e.ok then Tx.Meaning(second, e.db, e.mem) else e
  {
  }

  /** What a refused approval says; only the agent's own request is refused as such. */
  ghost function ApprovalRefusal<B>(ctx: Context, id: Text, d: Crm<B>): Error {
    if id !in d.actions then NotFound
    else if d.actions[id].status.Pending? && OwnAgentRequest(ctx, d.actions[id]) then SelfApproval(id) else Validation
  }

  /** The checks let exactly the approvable actions through, and refuse the others with the error of their case. */
  lemma ApproveChecks<B>(ops: Ops<B>, ctx: Context, id: Text, note: Option<Text>, now: int, f: Faults, d: Crm<B>)
    ensures var e := Tx.Meaning(ApproveBody(ops, ctx, id, note, now, f), d, START);
      if Approvable(ops, ctx, id, now, d)
      then e == Tx.Meaning(ApproveRun(ops, ctx, id, note, f), d, START.(found := Some(d.actions[id])))
      else !e.ok && e.mem.error == ApprovalRefusal(ctx, id, d)
  {
    var m := START.(found := if id in d.actions then Some(d.actions[id]) else None);
    var run := ApproveRun(ops, ctx, id, note, f);
    var exists_ := ThrowIf<B>((m: Local) => m.found.Some? && m.found.value.operation !in ops, Validation);
    var expired := Tx.If((m: Local) => m.found.Some? && m.found.value.expiresAt < now,
                         Tx.Then(SetStatus<B>(id, Cancelled, None, Some(EXPIRED)), Throw(Validation)), Nop());
    var own := ThrowIf<B>((m: Local) => m.found.Some? && OwnAgentRequest(ctx, m.found.value), SelfApproval(id));
    var settled := ThrowIf<B>((m: Local) => m.found.Some? && !m.found.value.status.Pending?, Validation);
    var missing := ThrowIf<B>((m: Local) => m.found.None?, NotFound);
    var r5 := Tx.Then(exists_, run);
    var r4 := Tx.Then(expired, r5);
    var r3 := Tx.Then(own, r4);
    var r2 := Tx.Then(settled, r3);
    var r1 := Tx.Then(missing, r2);
    assert ApproveBody(ops, ctx, id, note, now, f) == Tx.Then(Load(id), r1);
    assert Tx.Meaning(Load<B>(id), d, START) == Tx.End(true, d, m);
    ThenMeans(Load(id), r1, d, START);
    ThenMeans(missing, r2, d, m);
    ThenMeans(settled, r3, d, m);
    ThenMeans(own, r4, d, m);
    ThenMeans(expired, r5, d, m);
    ThenMeans(exists_, run, d, m);
    CheckMeans((m: Local) => m.found.None?, NotFound, d, m);
    CheckMeans((m: Local) => m.found.Some? && !m.found.value.status.Pending?, Validation, d, m);
    CheckMeans((m: Local) => m.found.Some? && OwnAgentRequest(ctx, m.found.value), SelfApproval(id), d, m);
    CheckMeans((m: Local) => m.found.Some? && m.found.value.operation !in ops, Validation, d, m);
    ExpiredMeans(id, now, d, m);
  }

  lemma ExpiredMeans<B>(id: Text, now: int, d: Crm<B>, m: Local)
    ensures var e := Tx.Meaning(Tx.If((m: Local) => m.found.Some? && m.found.value.expiresAt < now,
                                      Tx.Then(SetStatus<B>(id, Cancelled, None, Some(EXPIRED)), Throw(Validation)),
                                        Nop()), d, m);
      if m.found.Some? && m.found.value.expiresAt < now then !e.ok && e.mem == m.(error := Validation)
        else e == Tx.End(true, d, m)
  {
    ThenMeans(SetStatus<B>(id, Cancelled, None, Some(EXPIRED)), Throw(Validation), d, m);
  }

  lemma AtomicMeans<B>(mishap: Mishap, body: Tx.Code<Crm<B>, Local>, d: Crm<B>, m: Local)
    ensures var b := Tx.Meaning(body, d, m); var e := Tx.Meaning(Atomic(mishap, body), d, m);
      && e.ok == (b.ok && mishap.NoMishap?) && e.db == (if e.ok then b.db else d)
      && e.mem == (if mishap.AtOpen? then Broken(m) else if b.ok && mishap.AtClose? then Broken(b.mem) else b.mem)
  {
  }

  /** Whether the stored operation's writes are kept. */
  ghost predicate TargetKept<B>(ops: Ops<B>, id: Text, f: Faults, d: Crm<B>)
    requires id in d.actions
  {
    TargetEnd(ops, id, d).ok && f.nested.NoMishap?
  }

  /** What the target returned or threw, as it is stored in the action. */
  ghost function TargetResult<B>(ops: Ops<B>, id: Text, f: Faults, d: Crm<B>): Json
    requires id in d.actions
  {
    Told(f.nested, TargetEnd(ops, id, d))
  }

  lemma StoredKeepsActions<B(!new)>(ops: Ops<B>, id: Text, d: Crm<B>)
    requires WellFormed(ops) && id in d.actions
    ensures TargetEnd(ops, id, d).db.actions == d.actions
  {
  }

  /**
   One approval, whatever the target and wherever it breaks. It commits exactly when the action was
   pending, unexpired, not the agent's own, still known, and both transactions' own writes went through.
   Then the action is approved and the target's writes are in, or it is failed, with the failure and its
   audit row on record and no trace of the target. In every other case nothing has changed at all.
   */
  lemma ApproveMeans<B(!new)>(ops: Ops<B>, ctx: Context, id: Text, note: Option<Text>, now: int, f: Faults, d: Crm<B>)
    requires WellFormed(ops)
    ensures var e := Tx.Meaning(Atomic(f.outer, ApproveBody(ops, ctx, id, note, now, f)), d, START);
      && e.ok == (Approvable(ops, ctx, id, now, d) && !f.record && f.outer.NoMishap?)
      && (!e.ok ==> e.db == d)
      && (e.ok && TargetKept(ops, id, f, d) ==>
            var written := TargetEnd(ops, id, d).db;
            var value := TargetResult(ops, id, f, d);
            id in written.actions && e.mem.returned == Value(value) &&
            e.db == Decided(written, id, Approved, ctx, note, value, RanApproved(id)))
      && (e.ok && !TargetKept(ops, id, f, d) ==>
            var value := TargetResult(ops, id, f, d);
            e.mem.returned == CommittedFailure(value) &&
              e.db == Decided(d, id, Failed, ctx, note, value, RanFailed(id)))
      && (!e.ok ==> e.mem.error == if f.outer.AtOpen? || Approvable(ops, ctx, id, now, d) then Internal
                                   else ApprovalRefusal(ctx, id, d))
  {
    var body := ApproveBody(ops, ctx, id, note, now, f);
    AtomicMeans(f.outer, body, d, START);
    ApproveChecks(ops, ctx, id, note, now, f, d);
    if Approvable(ops, ctx, id, now, d) {
      StoredKeepsActions(ops, id, d);
      ApproveRunMeans(ops, ctx, id, note, f, d, START.(found := Some(d.actions[id])));
    }
  }

  // --- The other review operations ----------------------------------------------------

  predicate IsRequester(ctx: Context, pa: PendingAction) {
    (ctx.clientId.Some? && pa.requestedByClient == ctx.clientId) ||
      (ctx.userId.Some? && pa.requestedByUser == ctx.userId)
  }

  /** An agent answers for its client's requests, a human for their own. */
  predicate OwnsTask(ctx: Context, pa: PendingAction) {
    match ctx.actor
    case Agent => ctx.clientId.Some? && pa.requestedByClient == ctx.clientId
    case Human => ctx.userId.Some? && pa.requestedByUser == ctx.userId
    case System => false
  }

  /** The guarded transition with its audit row; a transition that missed leaves everything alone. */
  function Leave<B>(id: Text, status: Status, reviewer: Option<Text>, note: Option<Text>,
        event: AuditEvent): Tx.Code<Crm<B>, Local> {
    Tx.Then(TransitionIfPending(id, status, reviewer, note), Tx.If((m: Local) => m.ran, Record(event), Nop()))
  }

  /** The row as it is stored now. */
  function Show<B>(id: Text): Tx.Code<Crm<B>, Local> {
    Tx.Statement((d: Crm<B>, m: Local) =>
      (d, m.(returned := if id in d.actions then Shown(d.actions[id]) else Nothing)))
  }

  function RejectBody<B>(ctx: Context, id: Text, note: Option<Text>): Tx.Code<Crm<B>, Local> {
    Tx.Then(Load(id),
    Tx.Then(ThrowIf((m: Local) => m.found.None?, NotFound),
    Tx.Then(ThrowIf((m: Local) => m.found.Some? && !m.found.value.status.Pending?, Validation),
            Tx.Then(Leave(id, Rejected, ctx.userId, note, WasRejected(id)), Show(id)))))
  }

  function CancelBody<B>(ctx: Context, id: Text): Tx.Code<Crm<B>, Local> {
    Tx.Then(Load(id),
    Tx.Then(ThrowIf((m: Local) => m.found.None?, NotFound),
    Tx.Then(ThrowIf((m: Local) => m.found.Some? && !m.found.value.status.Pending?, Validation),
    Tx.Then(ThrowIf((m: Local) => m.found.Some? && !IsRequester(ctx, m.found.value) &&
      !RoleAtLeast(ctx.role, Admin), Forbidden),
            Tx.Then(CancelLeave(ctx, id), Show(id))))))
  }

  /** An agent that takes back its own request leaves no reviewer. */
  function CancelLeave<B>(ctx: Context, id: Text): Tx.Code<Crm<B>, Local> {
    Tx.If((m: Local) => m.found.Some? && OwnAgentRequest(ctx, m.found.value),
          Leave(id, Cancelled, None, None, WasCancelled(id)),
          Leave(id, Cancelled, ctx.userId, None, WasCancelled(id)))
  }

  function CancelOwnBody<B>(ctx: Context, id: Text): Tx.Code<Crm<B>, Local> {
    Tx.Then(Load(id),
    Tx.Then(ThrowIf((m: Local) => m.found.None? || !OwnsTask(ctx, m.found.value), NotFound),
            Tx.Then(Leave(id, Cancelled, if ctx.actor.Agent? then None else ctx.userId, None, WasCancelled(id)),
              Show(id))))
  }

  function GetOwnBody<B>(ctx: Context, id: Text, now: int): Tx.Code<Crm<B>, Local> {
    Tx.Then(Load(id),
    Tx.Then(ThrowIf((m: Local) => m.found.None? || !OwnsTask(ctx, m.found.value), NotFound),
    Tx.Then(Tx.If((m: Local) => m.found.Some? && m.found.value.status.Pending? && m.found.value.expiresAt < now,
                  Leave(id, Cancelled, None, Some(EXPIRED), WasExpired(id)), Nop()),
            Show(id))))
  }

  /** The handler of an operation, as the executor calls it. */
  function HandlerBody<B>(ops: Ops<B>, kind: Kind<B>, ctx: Context, input: Input, now: int, f: Faults): Tx.Code<Crm<B>,
        Local> {
    match (kind, input)
    case (Target(run), Payload(j)) => Tx.Then(RunHandler((d: Crm<B>, m: Local) => run(d, j)), Return(false))
    case (Approve, ForAction(id, note)) => ApproveBody(ops, ctx, id, note, now, f)
    case (Reject, ForAction(id, note)) => RejectBody(ctx, id, note)
    case (Cancel, ForAction(id, _)) => CancelBody(ctx, id)
    case (CancelOwn, ForAction(id, _)) => CancelOwnBody(ctx, id)
    case (GetOwn, ForAction(id, _)) => GetOwnBody(ctx, id, now)
    case _ => Throw(Validation)
  }

  /** When one of the four small review operations settles the action. */
  ghost predicate Settles<B>(kind: Kind<B>, ctx: Context, id: Text, now: int, d: Crm<B>) {
    && id in d.actions && d.actions[id].status.Pending?
    && match kind
       case Reject => true
       case Cancel => IsRequester(ctx, d.actions[id]) || RoleAtLeast(ctx.role, Admin)
       case CancelOwn => OwnsTask(ctx, d.actions[id])
       case GetOwn => OwnsTask(ctx, d.actions[id]) && d.actions[id].expiresAt < now
       case _ => false
  }

  /** The reviewer on record: nobody for an expiry or for an agent taking back its own request. */
  ghost function ReviewerOf<B>(kind: Kind<B>, ctx: Context, pa: PendingAction): Option<Text> {
    if kind.GetOwn? || (kind.Cancel? && OwnAgentRequest(ctx, pa)) || (kind.CancelOwn? && ctx.actor.Agent?) then None
      else ctx.userId
  }

  ghost function NoteOf<B>(kind: Kind<B>, note: Option<Text>): Option<Text> {
    if kind.Reject? then note else if kind.GetOwn? then Some(EXPIRED) else None
  }

  ghost function Settled<B>(kind: Kind<B>, ctx: Context, id: Text, note: Option<Text>, d: Crm<B>): Crm<B>
    requires id in d.actions
  {
    var pa := d.actions[id];
    var status := if kind.Reject? then Rejected else Cancelled;
    var event := if kind.Reject? then WasRejected(id) else if kind.GetOwn? then WasExpired(id) else WasCancelled(id);
    d.(actions := d.actions[id := Reviewed(pa, status, ReviewerOf(kind, ctx, pa), NoteOf(kind, note), None)],
       audit := d.audit + [event])
  }

  lemma LeaveMeans<B>(id: Text, status: Status, reviewer: Option<Text>, note: Option<Text>, event: AuditEvent,
        d: Crm<B>, m: Local)
    ensures var e := Tx.Meaning(Leave(id, status, reviewer, note, event), d, m);
      e.ok && e.db == if id in d.actions && d.actions[id].status.Pending?
      then d.(actions := d.actions[id := Reviewed(d.actions[id], status, reviewer, note, None)],
        audit := d.audit + [event])
      else d
  {
    if id in d.actions && d.actions[id].status.Pending? {
      var d1 := d.(actions := d.actions[id := Reviewed(d.actions[id], status, reviewer, note, None)]);
      assert Tx.Meaning(TransitionIfPending(id, status, reviewer, note), d, m) == Tx.End(true, d1, m.(ran := true));
    }
  }

  /** The last step of each review operation: settle or not, and return the row. */
  lemma ThenShowMeans<B>(settle: Tx.Code<Crm<B>, Local>, id: Text, d: Crm<B>, m: Local)
    requires Tx.Meaning(settle, d, m).ok && id in Tx.Meaning(settle, d, m).db.actions
    ensures var e := Tx.Meaning(settle, d, m); var r := Tx.Meaning(Tx.Then(settle, Show(id)), d, m);
      r.ok && r.db == e.db && r.mem.returned == Shown(e.db.actions[id])
  {
    var e := Tx.Meaning(settle, d, m);
    assert Tx.Meaning(Show<B>(id), e.db, e.mem) == Tx.End(true, e.db, e.mem.(returned := Shown(e.db.actions[id])));
  }

  lemma CheckThenMeans<B>(test: Local -> bool, error: Error, rest: Tx.Code<Crm<B>, Local>, d: Crm<B>, m: Local)
    ensures Tx.Meaning(Tx.Then(ThrowIf(test, error), rest), d, m) ==
      if test(m) then Tx.End(false, d, m.(error := error)) else Tx.Meaning(rest, d, m)
  {
    CheckMeans(test, error, d, m);
  }

  /** When one of the four succeeds, whether or not there is anything left to settle. */
  ghost predicate Answers<B>(kind: Kind<B>, ctx: Context, id: Text, d: Crm<B>) {
    && id in d.actions
    && match kind
       case Reject => d.actions[id].status.Pending?
       case Cancel => d.actions[id].status.Pending? && (IsRequester(ctx, d.actions[id]) || RoleAtLeast(ctx.role, Admin))
       case CancelOwn => OwnsTask(ctx, d.actions[id])
       case GetOwn => OwnsTask(ctx, d.actions[id])
       case _ => false
  }

  /** What a refusal says: nothing about an action that is not there, or not the requester's to see. */
  ghost function Refusal<B>(kind: Kind<B>, id: Text, d: Crm<B>): Error {
    if id !in d.actions || kind.CancelOwn? || kind.GetOwn? then NotFound
    else if !d.actions[id].status.Pending? then Validation else Forbidden
  }

  /** The outcome of one of the four: settled exactly when it may be, and the row as it is stored then. */
  ghost predicate Reviews<B>(kind: Kind<B>, ctx: Context, id: Text, note: Option<Text>, now: int, d: Crm<B>,
        e: Tx.End<Crm<B>, Local>) {
    && (e.ok <==> Answers(kind, ctx, id, d))
    && e.db == (if Settles(kind, ctx, id, now, d) then Settled(kind, ctx, id, note, d) else d)
    && (e.ok ==> id in e.db.actions && e.mem.returned == Shown(e.db.actions[id]))
    && (!e.ok ==> e.mem.error == Refusal(kind, id, d))
  }

  lemma RejectMeans<B>(ctx: Context, id: Text, note: Option<Text>, now: int, d: Crm<B>, m: Local)
    requires m == START.(found := if id in d.actions then Some(d.actions[id]) else None)
    ensures Reviews(Reject, ctx, id, note, now, d, Tx.Meaning(RejectBody<B>(ctx, id, note), d, START))
  {
    assert Tx.Meaning(Load<B>(id), d, START) == Tx.End(true, d, m);
    var leave := Leave<B>(id, Rejected, ctx.userId, note, WasRejected(id));
    var r2 := Tx.Then(leave, Show(id));
    var r1 := Tx.Then(ThrowIf((m: Local) => m.found.Some? && !m.found.value.status.Pending?, Validation), r2);
    CheckThenMeans((m: Local) => m.found.None?, NotFound, r1, d, m);
    CheckThenMeans((m: Local) => m.found.Some? && !m.found.value.status.Pending?, Validation, r2, d, m);
    LeaveMeans(id, Rejected, ctx.userId, note, WasRejected(id), d, m);
    if id in d.actions { ThenShowMeans(leave, id, d, m); }
  }

  lemma CancelLeaveMeans<B>(ctx: Context, id: Text, note: Option<Text>, d: Crm<B>, m: Local)
    requires m == START.(found := if id in d.actions then Some(d.actions[id]) else None)
    ensures var e := Tx.Meaning(CancelLeave<B>(ctx, id), d, m);
      e.ok && e.db == if id in d.actions && d.actions[id].status.Pending? then Settled(Cancel, ctx, id, note, d) else d
  {
    LeaveMeans(id, Cancelled, None, None, WasCancelled(id), d, m);
    LeaveMeans(id, Cancelled, ctx.userId, None, WasCancelled(id), d, m);
  }

  lemma CancelMeans<B>(ctx: Context, id: Text, note: Option<Text>, now: int, d: Crm<B>, m: Local)
    requires m == START.(found := if id in d.actions then Some(d.actions[id]) else None)
    ensures Reviews(Cancel, ctx, id, note, now, d, Tx.Meaning(CancelBody<B>(ctx, id), d, START))
  {
    assert Tx.Meaning(Load<B>(id), d, START) == Tx.End(true, d, m);
    var ask := (m: Local) => m.found.Some? && !IsRequester(ctx, m.found.value) && !RoleAtLeast(ctx.role, Admin);
    var leave := CancelLeave<B>(ctx, id);
    var r3 := Tx.Then(leave, Show(id));
    var r2 := Tx.Then(ThrowIf(ask, Forbidden), r3);
    var r1 := Tx.Then(ThrowIf((m: Local) => m.found.Some? && !m.found.value.status.Pending?, Validation), r2);
    CheckThenMeans((m: Local) => m.found.None?, NotFound, r1, d, m);
    CheckThenMeans((m: Local) => m.found.Some? && !m.found.value.status.Pending?, Validation, r2, d, m);
    CheckThenMeans(ask, Forbidden, r3, d, m);
    CancelLeaveMeans(ctx, id, note, d, m);
    if id in d.actions { ThenShowMeans(leave, id, d, m); }
  }

  lemma CancelOwnMeans<B>(ctx: Context, id: Text, note: Option<Text>, now: int, d: Crm<B>, m: Local)
    requires m == START.(found := if id in d.actions then Some(d.actions[id]) else None)
    ensures Reviews(CancelOwn, ctx, id, note, now, d, Tx.Meaning(CancelOwnBody<B>(ctx, id), d, START))
  {
    assert Tx.Meaning(Load<B>(id), d, START) == Tx.End(true, d, m);
    var who := if ctx.actor.Agent? then None else ctx.userId;
    var leave := Leave<B>(id, Cancelled, who, None, WasCancelled(id));
    CheckThenMeans((m: Local) => m.found.None? ||
      !OwnsTask(ctx, m.found.value), NotFound, Tx.Then(leave, Show(id)), d, m);
    LeaveMeans(id, Cancelled, who, None, WasCancelled(id), d, m);
    if id in d.actions { ThenShowMeans(leave, id, d, m); }
  }

  lemma GetOwnMeans<B>(ctx: Context, id: Text, note: Option<Text>, now: int, d: Crm<B>, m: Local)
    requires m == START.(found := if id in d.actions then Some(d.actions[id]) else None)
    ensures Reviews(GetOwn, ctx, id, note, now, d, Tx.Meaning(GetOwnBody<B>(ctx, id, now), d, START))
  {
    assert Tx.Meaning(Load<B>(id), d, START) == Tx.End(true, d, m);
    var expire := Tx.If((m: Local) => m.found.Some? && m.found.value.status.Pending? && m.found.value.expiresAt < now,
                        Leave<B>(id, Cancelled, None, Some(EXPIRED), WasExpired(id)), Nop());
    CheckThenMeans((m: Local) => m.found.None? ||
      !OwnsTask(ctx, m.found.value), NotFound, Tx.Then(expire, Show(id)), d, m);
    LeaveMeans(id, Cancelled, None, Some(EXPIRED), WasExpired(id), d, m);
    if id in d.actions { ThenShowMeans(expire, id, d, m); }
  }

  /**
   Each of the four settles the action exactly when it may, with the status, reviewer, note and audit row of its kind,
   returns the row as it is stored then, and refuses with the error of its kind.
   */
  lemma SmallReviewMeans<B>(ops: Ops<B>, kind: Kind<B>, ctx: Context, id: Text, note: Option<Text>, now: int, f: Faults,
        d: Crm<B>)
    requires kind.Reject? || kind.Cancel? || kind.CancelOwn? || kind.GetOwn?
    ensures Reviews(kind, ctx, id, note, now, d,
      Tx.Meaning(HandlerBody(ops, kind, ctx, ForAction(id, note), now, f), d, START))
  {
    var m := START.(found := if id in d.actions then Some(d.actions[id]) else None);
    match kind
    case Reject => RejectMeans(ctx, id, note, now, d, m);
    case Cancel => CancelMeans(ctx, id, note, now, d, m);
    case CancelOwn => CancelOwnMeans(ctx, id, note, now, d, m);
    case GetOwn => GetOwnMeans(ctx, id, note, now, d, m);
  }
}
