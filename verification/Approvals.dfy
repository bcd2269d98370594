/**
 Pending actions from the request to the decision: what is stored is what was asked, what an approval runs is what
 was stored, and no agent decides for its own client. Everything here is said of rows and columns.
 */
module Approvals {
  import opened Wrappers
  import opened JsonText
  import opened Policy
  import opened Catalog
  import opened Executor

  // --- One decision -----------------------------------------------------------------

  /** The same request: only the review columns may differ. */
  predicate SameRequest(a: PendingAction, b: PendingAction) {
    && a.operation == b.operation && a.input == b.input && a.risk == b.risk && a.expiresAt == b.expiresAt
    && a.requestedByUser == b.requestedByUser && a.requestedByClient == b.requestedByClient
  }

  predicate MayApprove<B>(ops: Ops<B>, ctx: Context, now: int, pa: PendingAction) {
    && pa.status.Pending? && pa.expiresAt >= now && pa.operation in ops
    && !(ctx.actor.Agent? && ctx.clientId.Some? && pa.requestedByClient == ctx.clientId)
  }

  /** The action has been decided; nothing else among the actions has changed. */
  ghost predicate Review<B>(ctx: Context, id: Text, note: Option<Text>, status: Status, result: Json, d: Crm<B>,
        d': Crm<B>)
    requires id in d.actions
  {
    && id in d'.actions && SameRequest(d.actions[id], d'.actions[id])
    && d'.actions == d.actions[id := d'.actions[id]]
    && d'.actions[id].status == status && d'.actions[id].result == Some(result)
    && d'.actions[id].reviewedBy == ctx.userId && d'.actions[id].note == note
  }

  /** A decision against the target: its writes are gone, and the failure is on record. */
  ghost predicate Failure<B>(ctx: Context, id: Text, note: Option<Text>, result: Json, d: Crm<B>, d': Crm<B>)
    requires id in d.actions
  {
    d'.biz == d.biz && d'.audit == d.audit + [RanFailed(id)] && Review(ctx, id, note, Failed, result, d, d')
  }

  /** What a committed approval leaves: the stored operation has run on its stored input, or has failed. */
  ghost predicate Decision<B>(ops: Ops<B>, ctx: Context, id: Text, note: Option<Text>, f: Faults, d: Crm<B>, d': Crm<B>)
    requires id in d.actions && d.actions[id].operation in ops
  {
    var op := ops[d.actions[id].operation];
    match (op.kind, op.parse(d.actions[id].input))
    case (Target(run), Some(Payload(j))) =>
      var t := run(d, j);
      if t.ok && f.nested.NoMishap?
      then d'.biz == t.db.biz && d'.audit == t.db.audit + [RanApproved(id)] &&
           Review(ctx, id, note, Approved, t.value, d, d')
      else Failure(ctx, id, note, if f.nested.NoMishap? || (f.nested.AtClose? && !t.ok) then t.value else Null, d, d')
    case _ => Failure(ctx, id, note, Null, d, d')
  }

  /** An approval commits exactly when the action may be approved and nothing breaks, and leaves a decision. */
  lemma ApprovalDecides<B(!new)>(ops: Ops<B>, ctx: Context, id: Text, note: Option<Text>, now: int, f: Faults,
        d: Crm<B>)
    requires WellFormed(ops)
    ensures var e := UnitEnd(ops, Handle(Approve, ctx, ForAction(id, note), now), f, d);
      && (e.ok <==> id in d.actions && MayApprove(ops, ctx, now, d.actions[id]) && !f.record && f.outer.NoMishap?)
      && (!e.ok ==> e.db == d)
      && (e.ok ==> Decision(ops, ctx, id, note, f, d, e.db))
  {
    ApproveMeans(ops, ctx, id, note, now, f, d);
    if id in d.actions { StoredKeepsActions(ops, id, d); }
  }

  // --- The four small operations ------------------------------------------------------

  predicate MayReview<B>(kind: Kind<B>, ctx: Context, pa: PendingAction) {
    match kind
    case Reject => pa.status.Pending?
    case Cancel =>
      pa.status.Pending? &&
        ((ctx.clientId.Some? && pa.requestedByClient == ctx.clientId) ||
         (ctx.userId.Some? && pa.requestedByUser == ctx.userId) || ctx.role == Admin || ctx.role == Owner)
    case _ =>
      || (ctx.actor == Agent && ctx.clientId.Some? && pa.requestedByClient == ctx.clientId)
      || (ctx.actor == Human && ctx.userId.Some? && pa.requestedByUser == ctx.userId)
  }

  /** A pending action leaves `pending`; one that is looked at by its requester does so when it has expired. */
  predicate Leaves<B>(kind: Kind<B>, now: int, pa: PendingAction) {
    pa.status.Pending? && (kind.GetOwn? ==> pa.expiresAt < now)
  }

  /** The review columns afterwards. An agent that takes back its own request is no reviewer, nor is an expiry. */
  predicate Reviewed<B>(kind: Kind<B>, ctx: Context, note: Option<Text>, pa: PendingAction, after: PendingAction) {
    && SameRequest(pa, after) && after.result.None?
    && match kind
       case Reject => after.status == Rejected && after.reviewedBy == ctx.userId && after.note == note
       case GetOwn => after.status == Cancelled && after.reviewedBy.None? && after.note == Some(Ascii("expired"))
       case _ =>
         && after.status == Cancelled && after.note.None?
         && after.reviewedBy == if ctx.actor == Agent && pa.requestedByClient.Some? &&
              pa.requestedByClient == ctx.clientId then None else ctx.userId
  }

  lemma ExpiredIs()
    ensures EXPIRED == Ascii("expired")
  {
  }

  /**
   Each of the four succeeds exactly for those who may, returns the row as it is stored then, and moves a pending
   action on with the review columns and the audit row of its kind.
   */
  lemma SmallReviewDecides<B(!new)>(
      ops: Ops<B>, kind: Kind<B>, ctx: Context, id: Text, note: Option<Text>, now: int, f: Faults, d: Crm<B>)
    requires kind.Reject? || kind.Cancel? || kind.CancelOwn? || kind.GetOwn?
    ensures var e := UnitEnd(ops, Handle(kind, ctx, ForAction(id, note), now), f, d);
      && (e.ok <==> id in d.actions && MayReview(kind, ctx, d.actions[id]) && f.outer.NoMishap?)
      && (e.ok ==> id in e.db.actions && e.mem.returned == Shown(e.db.actions[id]))
      && (if e.ok && Leaves(kind, now, d.actions[id])
          then && e.db == d.(actions := d.actions[id := e.db.actions[id]],
                             audit := d.audit + [if kind.Reject? then WasRejected(id)
                                                 else if kind.GetOwn? then WasExpired(id) else WasCancelled(id)])
               && Reviewed(kind, ctx, note, d.actions[id], e.db.actions[id])
          else e.db == d)
  {
    SmallReviewMeans(ops, kind, ctx, id, note, now, f, d);
    AtomicMeans(f.outer, HandlerBody(ops, kind, ctx, ForAction(id, note), now, f), d, START);
    ExpiredIs();
  }

  // --- From the request to the decision -------------------------------------------------

  /** No unit of work removes an action or changes what it asks for. */
  lemma UnitKeepsRequest<B(!new)>(ops: Ops<B>, unit: Executor.Unit<B>, f: Faults, d: Crm<B>, id: Text)
    requires WellFormed(ops) && Fits(unit) && id in d.actions &&
      (unit.Handle? && unit.kind.Target? ==> forall d, j :: unit.kind.run(d, j).db.actions == d.actions)
    ensures var d' := UnitEnd(ops, unit, f, d).db; id in d'.actions && SameRequest(d.actions[id], d'.actions[id])
  {
    match unit
    case Create(row, newId) => CreateMeans(ops, row, newId, f, d);
    case RecordRefusal(action) => RefusalMeans(ops, action, f, d);
    case Handle(Target(run), ctx, Payload(j), now) => TargetMeans(ops, unit.kind, ctx, j, now, f, d);
    case Handle(Approve, ctx, ForAction(other, note), now) => ApprovalDecides(ops, ctx, other, note, now, f, d);
    case Handle(kind, ctx, ForAction(other, note), now) => SmallReviewDecides(ops, kind, ctx, other, note, now, f, d);
    case _ =>
  }

  /** The units that follow an agent's request that was stored as `req.newId`. */
  ghost predicate Follows<B(!new)>(
      ops: Ops<B>, req: Request, f: Faults, d: Crm<B>, units: seq<Executor.Unit<B>>, fs: seq<Faults>, ds: seq<Crm<B>>)
  {
    && WellFormed(ops) && Behaved(units) && Units(ops, units, fs, ds)
    && Execute(ops, req, f, d) == (PendingApproval(req.newId), ds[0])
  }

  /** Whatever happens to it, the row keeps asking for what was asked. */
  lemma {:induction false} RequestStays<B(!new)>(
      ops: Ops<B>, req: Request, f: Faults, d: Crm<B>, units: seq<Executor.Unit<B>>, fs: seq<Faults>, ds: seq<Crm<B>>,
        k: nat)
    requires Follows(ops, req, f, d, units, fs, ds) && k < |ds|
    ensures req.newId in ds[0].actions && req.newId in ds[k].actions
    ensures SameRequest(ds[0].actions[req.newId], ds[k].actions[req.newId])
  {
    ExecutorFrame(ops, req, f, d);
    if k > 0 {
      RequestStays(ops, req, f, d, units, fs, ds, k - 1);
      UnitKeepsRequest(ops, units[k - 1], fs[k - 1], ds[k - 1], req.newId);
    }
  }

  /**
   Over every run: what an approval decides on is the operation the agent called, on the input it was parsed from,
   within seven days of the call, and never for an agent of the client that asked.
   */
  lemma WhatWasAskedIsDecided<B(!new)>(
      ops: Ops<B>, req: Request, f: Faults, d: Crm<B>, units: seq<Executor.Unit<B>>, fs: seq<Faults>, ds: seq<Crm<B>>,
        n: nat)
    requires Follows(ops, req, f, d, units, fs, ds) && n < |units|
    requires CommitsApproval(ops, units[n], fs[n], ds[n], req.newId)
    ensures units[n].now <= req.now + 604_800_000
    ensures !(units[n].ctx.actor.Agent? && req.ctx.clientId.Some? && units[n].ctx.clientId == req.ctx.clientId)
    ensures req.newId in ds[n].actions && ds[n].actions[req.newId].status.Pending?
    ensures req.name in ops && ds[n].actions[req.newId].operation == req.name
    ensures ops[req.name].parse(req.raw) == Some(Payload(ds[n].actions[req.newId].input))
    ensures Decision(ops, units[n].ctx, req.newId, units[n].input.note, fs[n], ds[n], ds[n + 1])
  {
    ExecutorFrame(ops, req, f, d);
    RequestStays(ops, req, f, d, units, fs, ds, n);
    var ForAction(id, note) := units[n].input;
    ApprovalDecides(ops, units[n].ctx, id, note, units[n].now, fs[n], ds[n]);
  }

  /** Once an agent of a client has been told to wait, no agent of that client ever decides the action. */
  lemma NoAgentApprovesItself<B(!new)>(
      ops: Ops<B>, req: Request, f: Faults, d: Crm<B>, units: seq<Executor.Unit<B>>, fs: seq<Faults>, ds: seq<Crm<B>>,
        n: nat)
    requires Follows(ops, req, f, d, units, fs, ds) && n < |units| && req.ctx.clientId.Some?
    requires units[n].Handle? && units[n].ctx.actor.Agent? && units[n].ctx.clientId == req.ctx.clientId
    ensures !CommitsApproval(ops, units[n], fs[n], ds[n], req.newId)
  {
    if CommitsApproval(ops, units[n], fs[n], ds[n], req.newId) {
      WhatWasAskedIsDecided(ops, req, f, d, units, fs, ds, n);
      assert false;
    }
  }

  // --- What the caller is told ------------------------------------------------------------

  /** The refusal of an approval: an agent's own request is refused as such. */
  function ApprovalError<B>(ctx: Context, id: Text, d: Crm<B>): Error {
    if id !in d.actions then NotFound
    else if d.actions[id].status.Pending? && ctx.actor == Agent && ctx.clientId.Some? &&
      d.actions[id].requestedByClient == ctx.clientId then SelfApproval(id)
    else Validation
  }

  /** The answer of an approval is that of the stored operation; its failure is the caller's error. */
  ghost predicate ApprovalAnswer<B>(ops: Ops<B>, ctx: Context, id: Text, now: int, d: Crm<B>, r: OpResult) {
    if id !in d.actions || !MayApprove(ops, ctx, now, d.actions[id]) then r == Refused(ApprovalError(ctx, id, d))
    else
      var op := ops[d.actions[id].operation];
      match (op.kind, op.parse(d.actions[id].input))
      case (Target(run), Some(Payload(j))) =>
        r == if run(d, j).ok then Done(Value(run(d, j).value)) else Refused(OfTarget(run(d, j).value))
      case _ => r == Refused(OfTarget(Null))
  }

  ghost predicate ReviewAnswer<B>(kind: Kind<B>, ctx: Context, id: Text, d: Crm<B>, r: OpResult) {
    if id in d.actions && MayReview(kind, ctx, d.actions[id])
    then r.Done? && r.data.Shown? && SameRequest(r.data.action, d.actions[id])
    else r == Refused(if id !in d.actions || kind.CancelOwn? || kind.GetOwn? then NotFound
                      else if !d.actions[id].status.Pending? then Validation else Forbidden)
  }

  lemma ApprovalAnswers<B(!new)>(ops: Ops<B>, req: Request, f: Faults, d: Crm<B>, id: Text, note: Option<Text>)
    requires WellFormed(ops) && f == Catalog.Faults(NoMishap, NoMishap, false, NoMishap)
    requires req.name in ops && ops[req.name].kind.Approve? && Authorized(ops[req.name].terms, req.ctx)
    requires ops[req.name].parse(req.raw) == Some(ForAction(id, note))
    ensures var (r, d') := Execute(ops, req, f, d);
      ApprovalAnswer(ops, req.ctx, id, req.now, d, r) &&
      (r == Refused(SelfApproval(id)) ==> d' == d.(audit := d.audit + [SelfApprovalRefused(id)]))
  {
    ApproveMeans(ops, req.ctx, id, note, req.now, f, d);
    var e := UnitEnd(ops, Handle(Approve, req.ctx, ForAction(id, note), req.now), f, d);
    if !e.ok { RefusalMeans(ops, id, f, d); }
  }

  lemma ReviewAnswers<B(!new)>(ops: Ops<B>, req: Request, f: Faults, d: Crm<B>, id: Text, note: Option<Text>)
    requires WellFormed(ops) && f == Catalog.Faults(NoMishap, NoMishap, false, NoMishap)
    requires req.name in ops && Authorized(ops[req.name].terms, req.ctx)
    requires !ops[req.name].kind.Approve? && ops[req.name].parse(req.raw) == Some(ForAction(id, note))
    ensures ReviewAnswer(ops[req.name].kind, req.ctx, id, d, Execute(ops, req, f, d).0)
  {
    var kind := ops[req.name].kind;
    SmallReviewDecides(ops, kind, req.ctx, id, note, req.now, f, d);
    SmallReviewMeans(ops, kind, req.ctx, id, note, req.now, f, d);
    AtomicMeans(f.outer, HandlerBody(ops, kind, req.ctx, ForAction(id, note), req.now, f), d, START);
  }

  /**
   The answer of a call while nothing breaks: unknown, malformed and forbidden calls are refused as such, an agent's
   risky call waits, and any other one returns what the operation returned or threw.
   */
  lemma CallAnswers<B(!new)>(ops: Ops<B>, req: Request, f: Faults, d: Crm<B>)
    requires WellFormed(ops) && f == Catalog.Faults(NoMishap, NoMishap, false, NoMishap) && req.newId !in d.actions
    ensures var r := Execute(ops, req, f, d).0;
      if req.name !in ops then r == Refused(NotFound)
      else if ops[req.name].parse(req.raw).None? then r == Refused(Validation)
      else if !Authorized(ops[req.name].terms, req.ctx) then r == Refused(Forbidden)
      else if NeedsApproval(ops[req.name].terms, req.ctx) then r == PendingApproval(req.newId)
      else match (ops[req.name].kind, ops[req.name].parse(req.raw).value)
        case (Target(run), Payload(j)) =>
          r == if run(d, j).ok then Done(Value(run(d, j).value)) else Refused(OfTarget(run(d, j).value))
        case (Approve, ForAction(id, _)) => ApprovalAnswer(ops, req.ctx, id, req.now, d, r)
        case (kind, ForAction(id, _)) => ReviewAnswer(kind, req.ctx, id, d, r)
        case _ => false
  {
    if req.name in ops && ops[req.name].parse(req.raw).Some? && Authorized(ops[req.name].terms, req.ctx) {
      var op := ops[req.name];
      if NeedsApproval(op.terms, req.ctx) {
        CreateMeans(ops, RowFor(req, op.terms.risk.value, InputJson(op.parse(req.raw).value)), req.newId, f, d);
      } else {
        match (op.kind, op.parse(req.raw).value)
        case (Target(run), Payload(j)) => TargetMeans(ops, op.kind, req.ctx, j, req.now, f, d);
        case (Approve, ForAction(id, note)) => ApprovalAnswers(ops, req, f, d, id, note);
        case (kind, ForAction(id, note)) => ReviewAnswers(ops, req, f, d, id, note);
        case _ =>
      }
    }
  }
}
