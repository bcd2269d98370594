/**
 `runMutation` as a protocol between concurrent requests. A request claims its idempotency key, runs the
 lifecycle change, the receipt completion and the audit row in one transaction, and abandons the claim
 when anything after the claim throws. Requests interleave, fail and crash at any point.
 */
module MutationProtocol {
  import opened Wrappers
  import opened JsonText
  import opened Receipts
  import Tx = SqliteTx

  // --- One mutation -----------------------------------------------------------

  /** What `build` hands back: the answer's status and data, and which data fields are one-time material. */
  datatype Answer = Answer(status: int, data: Option<Json>, oneTime: set<Text>)

  datatype Built<B> = Refuses | Builds(answer: Answer, biz: B)

  datatype Spec<!B> = Spec(key: Text, action: Text, hash: Text, requestId: Text, build: B -> Built<B>)

  datatype AuditRow = AuditRow(request: nat, ok: bool)

  datatype Store<B> = Store(biz: B, rows: Rows, audit: seq<AuditRow>)

  const DATA: Text := [0x64, 0x61, 0x74, 0x61]
  const REQUEST_ID: Text := [0x72, 0x65, 0x71, 0x75, 0x65, 0x73, 0x74, 0x49, 0x64]

  function Envelope(data: Option<Json>, requestId: Text): Json {
    Obj((if data.Some? then [Member(DATA, data.value)] else []) + [Member(REQUEST_ID, Str(requestId))])
  }

  function Without(ms: seq<Member<Json>>, fields: set<Text>): (r: seq<Member<Json>>)
    ensures forall m :: m in r <==> m in ms && m.key !in fields
    ensures fields == {} ==> r == ms
  {
    if |ms| == 0 then [] else (if ms[0].key in fields then [] else [ms[0]]) + Without(ms[1..], fields)
  }

  function Redacted(answer: Answer): Option<Json> {
    if answer.data.Some? && answer.data.value.Obj?
    then Some(Obj(Without(answer.data.value.members, answer.oneTime)))
    else answer.data
  }

  /** The body of the live response; none for 204. */
  function LiveBody(answer: Answer, requestId: Text): Option<Text> {
    if answer.status == 204 then None else Some(Print(Envelope(answer.data, requestId)))
  }

  /** The body kept for replays. */
  function StoredBody(answer: Answer, requestId: Text): Option<Text> {
    if answer.status == 204 then None
    else if answer.oneTime != {} && answer.data.Some? && answer.data.value.Obj?
    then Some(Print(Envelope(Redacted(answer), requestId)))
    else LiveBody(answer, requestId)
  }

  /** Where the environment makes the transaction fail. */
  datatype Faults = Faults(opens: bool, afterChange: bool, afterReceipt: bool, afterAudit: bool, closes: bool)

  const NO_FAULTS := Faults(false, false, false, false, false)

  predicate Clean(f: Faults) { f == NO_FAULTS }

  /** The request's own variables inside the transaction: the answer, once built. */
  type Local = Option<Answer>

  function FailAt<B>(here: bool): Tx.Code<Store<B>, Local> {
    if here then Tx.Throw((m: Local) => m) else Tx.Statement((d: Store<B>, m: Local) => (d, m))
  }

  function BuildStatement<B>(spec: Spec<B>): Tx.Code<Store<B>, Local> {
    Tx.Statement((d: Store<B>, m: Local) =>
      match spec.build(d.biz)
      case Refuses => (d, None)
      case Builds(answer, biz) => (d.(biz := biz), Some(answer)))
  }

  function CompleteStatement<B>(spec: Spec<B>): Tx.Code<Store<B>, Local> {
    Tx.Statement((d: Store<B>, m: Local) =>
      if m.None? then (d, m)
      else (d.(rows := Complete(d.rows, spec.key, m.value.status, StoredBody(m.value, spec.requestId))), m))
  }

  function AuditStatement<B>(i: nat): Tx.Code<Store<B>, Local> {
    Tx.Statement((d: Store<B>, m: Local) => (d.(audit := d.audit + [AuditRow(i, true)]), m))
  }

  /** The transaction body as the server writes it, fault points included. */
  function MutationCode<B>(spec: Spec<B>, i: nat, f: Faults): Tx.Code<Store<B>, Local> {
    var fault: Tx.Fault<Local> :=
      if f.opens then Tx.OpenFails((m: Local) => m) else if f.closes then Tx.CloseFails((m: Local) => m) else Tx.Clean;
    Tx.Transaction(fault,
      Tx.Then(BuildStatement(spec),
      Tx.Then(Tx.If((m: Local) => m.Some?, FailAt(f.afterChange), FailAt(true)),
      Tx.Then(CompleteStatement(spec),
      Tx.Then(FailAt(f.afterReceipt),
      Tx.Then(AuditStatement(i), FailAt(f.afterAudit)))))))
  }

  function Transact<B>(spec: Spec<B>, i: nat, f: Faults, d: Store<B>): Tx.End<Store<B>, Local> {
    Tx.Meaning(MutationCode(spec, i, f), d, None)
  }

  /** All of it or nothing: a fault anywhere, or a refusing build, leaves the store as it was. */
  lemma MutationIsAtomic<B>(spec: Spec<B>, i: nat, f: Faults, d: Store<B>)
    ensures var e := Transact(spec, i, f, d); var built := spec.build(d.biz);
      && (e.ok <==> Clean(f) && built.Builds?)
      && (!e.ok ==> e.db == d)
      && (e.ok ==>
            && e.mem == Some(built.answer)
            && e.db == Store(built.biz,
                             Complete(d.rows, spec.key, built.answer.status, StoredBody(built.answer, spec.requestId)),
                             d.audit + [AuditRow(i, true)]))
  {
    var built := spec.build(d.biz);
    var d1 := if built.Builds? then d.(biz := built.biz) else d;
    var m1: Local := if built.Builds? then Some(built.answer) else None;
    assert Tx.Meaning(BuildStatement(spec), d, None) == Tx.End(true, d1, m1);
    if built.Builds? {
      var d2 := d1.(rows := Complete(d.rows, spec.key, built.answer.status, StoredBody(built.answer, spec.requestId)));
      assert Tx.Meaning(CompleteStatement(spec), d1, m1) == Tx.End(true, d2, m1);
      assert Tx.Meaning(AuditStatement(i), d2, m1) == Tx.End(true, d2.(audit := d2.audit + [AuditRow(i, true)]), m1);
    }
  }

  // --- Requests --------------------------------------------------------------------

  datatype Response =
    | Live(status: int, body: Option<Text>)
    | Replayed(status: int, body: Option<Text>)
    | Conflict
    | InProgress
    | Failure

  datatype Pc =
    | Arrived
    | Claimed
    | Committed(answer: Answer)
    | Failing(committed: bool)
    | Replaying(receipt: Receipt)
    | Refusing(response: Response)
    | Answered(response: Response)
    | Crashed

  /** The record of one committed mutation: which request, and what its receipt must answer with. */
  datatype Commit = Commit(request: nat, status: int, body: Option<Text>)

  /**
   `specs` is what the clients sent, `pcs` and `audited` how far each request is. `claimant`, `commits` and
   `commitOf` are history: who claimed a key last, what committed, and where each key committed last.
   */
  datatype Sys<!B> = Sys(
    specs: seq<Spec<B>>, pcs: seq<Pc>, audited: set<nat>, store: Store<B>, now: int,
    claimant: map<Text, nat>, commits: seq<Commit>, commitOf: map<Text, nat>)
  {
    ghost predicate Has(i: nat) { i < |pcs| == |specs| }

    ghost function To(i: nat, pc: Pc): Sys<B>
      requires i < |pcs|
    {
      this.(pcs := pcs[i := pc])
    }

    ghost predicate Completed(key: Text) { key in store.rows && store.rows[key].state.Completed? }

    ghost predicate Pending(key: Text) { key in store.rows && store.rows[key].state.Pending? }
  }

  function PcAfterClaim<B>(spec: Spec<B>, claim: Claim): Pc {
    if claim.Started? then Claimed
    else if claim.receipt.action != spec.action || claim.receipt.requestHash != spec.hash then Refusing(Conflict)
    else if claim.receipt.state.Pending? then Refusing(InProgress)
    else Replaying(claim.receipt)
  }

  /** The claim of the key, and what follows from it. */
  ghost predicate BeginStep<B>(s: Sys<B>, s': Sys<B>, i: nat) {
    && s.Has(i) && s.pcs[i].Arrived?
    && var spec := s.specs[i];
    && var (claim, rows) := Begin(s.store.rows, spec.key, spec.action, spec.hash, spec.requestId, s.now);
    && s' == s.To(i, PcAfterClaim(spec, claim))
              .(store := s.store.(rows := rows),
                claimant := if claim.Started? then s.claimant[spec.key := i] else s.claimant)
  }

  /** beginReceipt itself throws: nothing was claimed, so nothing is abandoned. */
  ghost predicate BeginFails<B>(s: Sys<B>, s': Sys<B>, i: nat) {
    s.Has(i) && s.pcs[i].Arrived? && s' == s.To(i, Refusing(Failure))
  }

  ghost predicate CommitStep<B>(s: Sys<B>, s': Sys<B>, i: nat, answer: Answer, biz: B) {
    && s.Has(i) && s.pcs[i].Claimed?
    && var spec := s.specs[i];
    && var body := StoredBody(answer, spec.requestId);
    && s' == s.To(i, Committed(answer))
              .(store := Store(biz, Complete(s.store.rows, spec.key, answer.status, body),
                s.store.audit + [AuditRow(i, true)]),
                audited := s.audited + {i},
                commits := s.commits + [Commit(i, answer.status, body)],
                commitOf := s.commitOf[spec.key := |s.commits|])
  }

  ghost predicate RollbackStep<B>(s: Sys<B>, s': Sys<B>, i: nat) {
    s.Has(i) && s.pcs[i].Claimed? && s' == s.To(i, Failing(false))
  }

  /** It commits exactly when nothing failed and the build accepted; see `TransactStepIsTheTransaction`. */
  ghost predicate TransactStep<B>(s: Sys<B>, s': Sys<B>, i: nat, f: Faults) {
    && s.Has(i)
    && var built := s.specs[i].build(s.store.biz);
    && if Clean(f) && built.Builds? then CommitStep(s, s', i, built.answer, built.biz) else RollbackStep(s, s', i)
  }

  /** Delivery and sending the response run after the commit and may still throw. */
  ghost predicate RespondStep<B>(s: Sys<B>, s': Sys<B>, i: nat, throws: bool) {
    && s.Has(i) && s.pcs[i].Committed?
    && var answer := s.pcs[i].answer;
    && s' == s.To(i, if throws then Failing(true)
          else Answered(Live(answer.status, LiveBody(answer, s.specs[i].requestId))))
  }

  /** The catch branch: release the key; a failure to do so is swallowed. */
  ghost predicate AbandonStep<B>(s: Sys<B>, s': Sys<B>, i: nat, fails: bool) {
    && s.Has(i) && s.pcs[i].Failing?
    && s' == s.To(i, Refusing(Failure))
              .(store := s.store.(rows := if fails then s.store.rows else Abandon(s.store.rows, s.specs[i].key)))
  }

  /** finishAudit, then the error or the stored answer. The audit row may fail to be written. */
  ghost predicate FinishStep<B>(s: Sys<B>, s': Sys<B>, i: nat, auditFails: bool) {
    && s.Has(i) && (s.pcs[i].Refusing? || s.pcs[i].Replaying?)
    && var pc := s.pcs[i];
    && var response := if pc.Refusing? then pc.response else Replayed(pc.receipt.status, pc.receipt.body);
    && s' == s.To(i, Answered(response))
              .(store := if i in s.audited || auditFails then s.store
                         else s.store.(audit := s.store.audit + [AuditRow(i, pc.Replaying?)]),
                audited := s.audited + {i})
  }

  ghost predicate CrashStep<B>(s: Sys<B>, s': Sys<B>, i: nat) {
    s.Has(i) && !s.pcs[i].Answered? && s' == s.To(i, Crashed)
  }

  datatype Event =
    | Begins(i: nat)
    | BeginThrows(i: nat)
    | Transacts(i: nat, faults: Faults)
    | Responds(i: nat, throws: bool)
    | Abandons(i: nat, fails: bool)
    | Finishes(i: nat, auditFails: bool)
    | Crashes(i: nat)
    | Ticks(now: int)

  ghost predicate StepBy<B>(s: Sys<B>, e: Event, s': Sys<B>) {
    match e
    case Begins(i) => BeginStep(s, s', i)
    case BeginThrows(i) => BeginFails(s, s', i)
    case Transacts(i, faults) => TransactStep(s, s', i, faults)
    case Responds(i, throws) => RespondStep(s, s', i, throws)
    case Abandons(i, fails) => AbandonStep(s, s', i, fails)
    case Finishes(i, auditFails) => FinishStep(s, s', i, auditFails)
    case Crashes(i) => CrashStep(s, s', i)
    case Ticks(now) => now >= s.now && s' == s.(now := now)
  }

  /** Still able to run its transaction, or to abandon the key without having committed. */
  predicate Alive(pc: Pc) { pc.Claimed? || pc == Failing(false) }

  /** Request `i` claims a key whose row is already there. */
  ghost predicate Displaces<B>(s: Sys<B>, s': Sys<B>, i: nat) {
    BeginStep(s, s', i) && s'.pcs[i].Claimed? && s.specs[i].key in s.store.rows
  }

  /** The assumption behind takeover: only a claimant that crashed or gave up is displaced. */
  ghost predicate Safe<B>(s: Sys<B>, e: Event, s': Sys<B>) {
    e.Begins? && Displaces(s, s', e.i) ==>
      var key := s.specs[e.i].key;
      key in s.claimant && s.claimant[key] < |s.pcs| && !Alive(s.pcs[s.claimant[key]])
  }

  ghost predicate Initial<B>(s: Sys<B>) {
    && |s.pcs| == |s.specs| && (forall i :: 0 <= i < |s.pcs| ==> s.pcs[i].Arrived?)
    && s.audited == {} && s.store.rows == map[] && s.store.audit == []
    && s.claimant == map[] && s.commits == [] && s.commitOf == map[]
  }

  /** Event `k` leads from state `k` to the next one. */
  ghost predicate Run<B>(trace: seq<Sys<B>>, events: seq<Event>) {
    && |trace| == |events| + 1 && Initial(trace[0])
    && forall k {:trigger events[k]} :: 0 <= k < |events| ==> StepBy(trace[k], events[k], trace[k + 1])
  }

  ghost predicate SafeRun<B>(trace: seq<Sys<B>>, events: seq<Event>) {
    Run(trace, events) && forall k {:trigger events[k]} :: 0 <= k < |events| ==> Safe(trace[k], events[k], trace[k + 1])
  }

  // --- The invariant ------------------------------------------------------------------

  ghost predicate RequestInv<B>(s: Sys<B>) {
    && |s.pcs| == |s.specs|
    // A live request owns the pending row of its key.
    && (forall i :: 0 <= i < |s.pcs| && Alive(s.pcs[i]) ==>
          s.Pending(s.specs[i].key) && s.specs[i].key in s.claimant && s.claimant[s.specs[i].key] == i)
    // After its commit a request finds its row completed, whatever it still has to do.
    && (forall i :: 0 <= i < |s.pcs| && (s.pcs[i].Committed? || s.pcs[i] == Failing(true)) ==>
          s.Completed(s.specs[i].key))
  }

  /** A key has a commit on record exactly when its row is completed, and the row holds that commit's answer. */
  ghost predicate KeysFit<B>(s: Sys<B>) {
    && (forall key :: key in s.commitOf <==> s.Completed(key))
    && (forall key :: key in s.commitOf ==>
          && s.commitOf[key] < |s.commits|
          && var c := s.commits[s.commitOf[key]];
          && c.request < |s.specs| && s.specs[c.request].key == key
          && s.store.rows[key].status == c.status && s.store.rows[key].body == c.body)
  }

  /** Every commit is the one on record for its key. */
  ghost predicate CommitsFit<B>(s: Sys<B>) {
    forall c :: 0 <= c < |s.commits| ==>
      && s.commits[c].request < |s.specs|
      && var key := s.specs[s.commits[c].request].key;
      && key in s.commitOf && s.commitOf[key] == c
  }

  /** Completed rows and committed mutations correspond one to one, and agree on the stored answer. */
  ghost predicate History<B>(s: Sys<B>) { KeysFit(s) && CommitsFit(s) }

  ghost predicate Inv<B>(s: Sys<B>) { RequestInv(s) && History(s) }

  /** Nothing committed, and the completed rows are the same ones as before. */
  ghost predicate NoCommit<B>(s: Sys<B>, s': Sys<B>) {
    && s'.specs == s.specs && s'.commits == s.commits && s'.commitOf == s.commitOf
    && (forall key :: s.Completed(key) ==> s'.Completed(key) && s'.store.rows[key] == s.store.rows[key])
    && (forall key :: s'.Completed(key) ==> s.Completed(key))
  }

  lemma HistoryStays<B>(s: Sys<B>, s': Sys<B>)
    requires History(s) && NoCommit(s, s')
    ensures History(s')
  {
  }

  lemma BeginKeepsRequests<B>(s: Sys<B>, s': Sys<B>, i: nat)
    requires RequestInv(s) && BeginStep(s, s', i) && Safe(s, Begins(i), s')
    ensures RequestInv(s')
  {
  }

  lemma BeginKeeps<B>(s: Sys<B>, s': Sys<B>, i: nat)
    requires Inv(s) && BeginStep(s, s', i) && Safe(s, Begins(i), s')
    ensures Inv(s')
  {
    BeginKeepsRequests(s, s', i);
    HistoryStays(s, s');
  }

  /** The commit completes the row of its own key, which was pending, and touches no other row. */
  lemma CommitRows<B>(s: Sys<B>, s': Sys<B>, i: nat, answer: Answer, biz: B)
    requires RequestInv(s) && CommitStep(s, s', i, answer, biz)
    ensures var key := s.specs[i].key;
      && s.Pending(key) && s'.Completed(key) && s'.store.rows.Keys == s.store.rows.Keys
      && (forall k :: k in s.store.rows && k != key ==> s'.store.rows[k] == s.store.rows[k])
      && s'.store.rows[key].status == answer.status &&
            s'.store.rows[key].body == StoredBody(answer, s.specs[i].requestId)
  {
  }

  lemma CommitKeepsKeys<B>(s: Sys<B>, s': Sys<B>, i: nat, answer: Answer, biz: B)
    requires RequestInv(s) && KeysFit(s) && CommitStep(s, s', i, answer, biz)
    ensures KeysFit(s')
  {
    CommitRows(s, s', i, answer, biz);
  }

  lemma CommitKeepsCommits<B>(s: Sys<B>, s': Sys<B>, i: nat, answer: Answer, biz: B)
    requires Inv(s) && CommitStep(s, s', i, answer, biz)
    ensures CommitsFit(s')
  {
    CommitRows(s, s', i, answer, biz);
    assert s.specs[i].key !in s.commitOf;
  }

  lemma CommitKeepsHistory<B>(s: Sys<B>, s': Sys<B>, i: nat, answer: Answer, biz: B)
    requires Inv(s) && CommitStep(s, s', i, answer, biz)
    ensures History(s')
  {
    CommitKeepsKeys(s, s', i, answer, biz);
    CommitKeepsCommits(s, s', i, answer, biz);
  }

  lemma CommitKeeps<B>(s: Sys<B>, s': Sys<B>, i: nat, answer: Answer, biz: B)
    requires Inv(s) && CommitStep(s, s', i, answer, biz)
    ensures Inv(s')
  {
    CommitRows(s, s', i, answer, biz);
    CommitKeepsHistory(s, s', i, answer, biz);
  }

  lemma AbandonKeeps<B>(s: Sys<B>, s': Sys<B>, i: nat, fails: bool)
    requires Inv(s) && AbandonStep(s, s', i, fails)
    ensures Inv(s')
  {
    HistoryStays(s, s');
  }

  /** Every other step leaves the receipts alone. */
  lemma OtherKeeps<B>(s: Sys<B>, s': Sys<B>, i: nat)
    requires Inv(s) && s.Has(i) && s'.store.rows == s.store.rows && s'.commits == s.commits && s'.commitOf == s.commitOf
    requires s'.specs == s.specs && s'.claimant == s.claimant && |s'.pcs| == |s.pcs| && s'.pcs == s.pcs[i := s'.pcs[i]]
    requires Alive(s'.pcs[i]) ==> Alive(s.pcs[i])
    requires s'.pcs[i].Committed? || s'.pcs[i] == Failing(true) ==> s.pcs[i].Committed? || s.pcs[i] == Failing(true)
    ensures Inv(s')
  {
  }

  lemma StepKeeps<B>(s: Sys<B>, e: Event, s': Sys<B>)
    requires Inv(s) && StepBy(s, e, s') && Safe(s, e, s')
    ensures Inv(s')
  {
    match e
    case Begins(i) => BeginKeeps(s, s', i);
    case Transacts(i, f) =>
      var built := s.specs[i].build(s.store.biz);
      if Clean(f) && built.Builds? { CommitKeeps(s, s', i, built.answer, built.biz); } else { OtherKeeps(s, s', i); }
    case Abandons(i, fails) => AbandonKeeps(s, s', i, fails);
    case Ticks(_) =>
    case _ => OtherKeeps(s, s', e.i);
  }

  lemma {:induction false} Reachable<B>(trace: seq<Sys<B>>, events: seq<Event>, k: nat)
    requires SafeRun(trace, events) && k < |trace|
    ensures Inv(trace[k])
  {
    if k > 0 {
      Reachable(trace, events, k - 1);
      StepKeeps(trace[k - 1], events[k - 1], trace[k]);
    }
  }

  // --- Main results -----------------------------------------------------------------------

  /** The step is what the intended meaning of the transaction says, faults included. */
  lemma TransactStepIsTheTransaction<B>(s: Sys<B>, s': Sys<B>, i: nat, f: Faults)
    requires TransactStep(s, s', i, f)
    ensures var e := Transact(s.specs[i], i, f, s.store);
      s'.store == e.db && (e.ok <==> s'.pcs[i].Committed?) && (e.ok ==> e.mem == Some(s'.pcs[i].answer))
  {
    MutationIsAtomic(s.specs[i], i, f, s.store);
  }

  /** At most one mutation per idempotency key ever commits. */
  lemma AtMostOnce<B>(trace: seq<Sys<B>>, events: seq<Event>, k: nat, c: nat, d: nat)
    requires SafeRun(trace, events) && k < |trace| && c < d < |trace[k].commits|
    ensures var s := trace[k];
      s.commits[c].request < |s.specs| && s.commits[d].request < |s.specs| &&
      s.specs[s.commits[c].request].key != s.specs[s.commits[d].request].key
  {
    Reachable(trace, events, k);
  }

  /** Commit `c` is one of this key. */
  ghost predicate IsCommitOf<B>(s: Sys<B>, c: nat, key: Text) {
    c < |s.commits| && s.commits[c].request < |s.specs| && s.specs[s.commits[c].request].key == key
  }

  /**
   A key's row is completed exactly when a mutation of that key has committed. Whatever commit of the key one
   looks at, the row is there and holds its status and its body without the one-time fields.
   */
  lemma CompletedMeansCommitted<B>(trace: seq<Sys<B>>, events: seq<Event>, k: nat, key: Text)
    requires SafeRun(trace, events) && k < |trace|
    ensures trace[k].Completed(key) <==> exists c: nat :: IsCommitOf(trace[k], c, key)
    ensures var s := trace[k];
      forall c: nat :: IsCommitOf(s, c, key) ==>
        key in s.store.rows && s.store.rows[key].status == s.commits[c].status &&
          s.store.rows[key].body == s.commits[c].body
  {
    Reachable(trace, events, k);
    var s := trace[k];
    if s.Completed(key) {
      assert key in s.commitOf;
      assert IsCommitOf(s, s.commitOf[key], key);
    }
  }

  lemma StepKeepsCompleted<B>(s: Sys<B>, e: Event, s': Sys<B>, key: Text)
    requires Inv(s) && StepBy(s, e, s') && s.Completed(key)
    ensures s'.Completed(key) && s'.store.rows[key] == s.store.rows[key]
  {
    match e
    case Begins(i) =>
    case Transacts(i, f) => assert s.pcs[i].Claimed?;
    case Abandons(i, fails) =>
    case _ => assert s'.store.rows == s.store.rows;
  }

  lemma RunKeepsCompleted<B>(trace: seq<Sys<B>>, events: seq<Event>, k: nat, key: Text)
    requires SafeRun(trace, events) && k < |events| && trace[k].Completed(key)
    ensures trace[k + 1].Completed(key) && trace[k + 1].store.rows[key] == trace[k].store.rows[key]
  {
    Reachable(trace, events, k);
    StepKeepsCompleted(trace[k], events[k], trace[k + 1], key);
  }

  /** A completed row is never changed or removed, whatever later requests, faults and throws do. */
  lemma {:induction false} CompletedForever<B>(trace: seq<Sys<B>>, events: seq<Event>, j: nat, k: nat, key: Text)
    requires SafeRun(trace, events) && j <= k < |trace| && trace[j].Completed(key)
    ensures trace[k].Completed(key) && trace[k].store.rows[key] == trace[j].store.rows[key]
    decreases |trace| - j
  {
    if j < k {
      RunKeepsCompleted(trace, events, j, key);
      CompletedForever(trace, events, j + 1, k, key);
    }
  }

  predicate Mismatch<B>(spec: Spec<B>, row: Receipt) { row.action != spec.action || row.requestHash != spec.hash }

  /** What a request that comes after the completion can still become. */
  ghost predicate LateAnswer<B>(spec: Spec<B>, pc: Pc, row: Receipt) {
    match pc
    case Arrived => true
    case Crashed => true
    case Replaying(receipt) => receipt == row && !Mismatch(spec, row)
    case Refusing(response) => response.Failure? || (response.Conflict? && Mismatch(spec, row))
    case Answered(Replayed(status, body)) => status == row.status && body == row.body && !Mismatch(spec, row)
    case Answered(response) => response.Failure? || (response.Conflict? && Mismatch(spec, row))
    case _ => false
  }

  lemma LateStep<B>(s: Sys<B>, e: Event, s': Sys<B>, i: nat)
    requires StepBy(s, e, s') && s.Has(i) && s.Completed(s.specs[i].key)
    requires LateAnswer(s.specs[i], s.pcs[i], s.store.rows[s.specs[i].key])
    ensures s'.Has(i) && s'.specs == s.specs && LateAnswer(s.specs[i], s'.pcs[i], s.store.rows[s.specs[i].key])
  {
    if !e.Ticks? && e.i != i { assert s'.pcs[i] == s.pcs[i]; }
  }

  lemma {:induction false} LateAnswers<B>(trace: seq<Sys<B>>, events: seq<Event>, j: nat, k: nat, i: nat, row: Receipt)
    requires SafeRun(trace, events) && j <= k < |trace| && trace[j].Has(i)
    requires var spec := trace[j].specs[i];
      trace[j].Completed(spec.key) && trace[j].store.rows[spec.key] == row && LateAnswer(spec, trace[j].pcs[i], row)
    ensures trace[k].Has(i) && trace[k].specs == trace[j].specs && LateAnswer(trace[k].specs[i], trace[k].pcs[i], row)
    decreases |trace| - j
  {
    if j < k {
      RunKeepsCompleted(trace, events, j, trace[j].specs[i].key);
      LateStep(trace[j], events[j], trace[j + 1], i);
      LateAnswers(trace, events, j + 1, k, i, row);
    }
  }

  /** A step that leaves business data, receipts and commits alone, and at most adds the request's audit row. */
  ghost predicate OnlyAudits<B>(s: Sys<B>, s': Sys<B>, i: nat) {
    && s'.store.biz == s.store.biz && s'.store.rows == s.store.rows && s'.commits == s.commits
    && (s'.store.audit == s.store.audit || exists ok :: s'.store.audit == s.store.audit + [AuditRow(i, ok)])
  }

  lemma LateStepOnlyAudits<B>(s: Sys<B>, e: Event, s': Sys<B>, i: nat, row: Receipt)
    requires StepBy(s, e, s') && !e.Ticks? && e.i == i && s.Has(i)
    requires s.Completed(s.specs[i].key) && LateAnswer(s.specs[i], s.pcs[i], row)
    ensures OnlyAudits(s, s', i)
  {
    if e.Finishes? && s'.store.audit != s.store.audit {
      assert s'.store.audit == s.store.audit + [AuditRow(i, s.pcs[i].Replaying?)];
    }
  }

  /**
   A request that had not begun when its key was completed never commits. It is answered with exactly the
   stored status and body if it is the same request, and with a conflict if it is not; and none of its own steps
   has any further effect than its audit row.
   */
  lemma LateRequestsReplay<B>(trace: seq<Sys<B>>, events: seq<Event>, j: nat, k: nat, i: nat)
    requires SafeRun(trace, events) && j <= k < |trace|
    requires trace[j].Has(i) && trace[j].pcs[i].Arrived? && trace[j].Completed(trace[j].specs[i].key)
    ensures trace[k].Has(i) && trace[k].specs == trace[j].specs
    ensures LateAnswer(trace[k].specs[i], trace[k].pcs[i], trace[j].store.rows[trace[j].specs[i].key])
    ensures k < |events| && !events[k].Ticks? && events[k].i == i ==> OnlyAudits(trace[k], trace[k + 1], i)
  {
    var key := trace[j].specs[i].key;
    var row := trace[j].store.rows[key];
    LateAnswers(trace, events, j, k, i, row);
    CompletedForever(trace, events, j, k, key);
    if k < |events| && !events[k].Ticks? && events[k].i == i {
      LateStepOnlyAudits(trace[k], events[k], trace[k + 1], i, row);
    }
  }

  /** Only a request that holds its claim ever touches the business data. */
  lemma OnlyCommitsChangeBusiness<B>(s: Sys<B>, e: Event, s': Sys<B>)
    requires Inv(s) && StepBy(s, e, s') && (s'.store.biz != s.store.biz || |s'.commits| != |s.commits|)
    ensures e.Transacts? && s.pcs[e.i].Claimed? && s'.pcs[e.i].Committed?
    ensures !s.Completed(s.specs[e.i].key) && s'.Completed(s.specs[e.i].key)
    ensures s.specs[e.i].build(s.store.biz) == Builds(s'.pcs[e.i].answer, s'.store.biz)
  {
  }

  // --- One audit row per request --------------------------------------------------------------

  function AuditCount(audit: seq<AuditRow>, i: nat): nat {
    if |audit| == 0 then 0
    else AuditCount(audit[..|audit| - 1], i) + (if audit[|audit| - 1].request == i then 1 else 0)
  }

  ghost predicate AuditedOnce<B>(s: Sys<B>) {
    && |s.pcs| == |s.specs|
    && CountsFit(s.store.audit, s.audited)
    && (forall i :: 0 <= i < |s.pcs| && (s.pcs[i].Arrived? || Alive(s.pcs[i])) ==> i !in s.audited)
  }

  lemma AuditGrows(audit: seq<AuditRow>, row: AuditRow, i: nat)
    ensures AuditCount(audit + [row], i) == AuditCount(audit, i) + (if row.request == i then 1 else 0)
  {
    assert (audit + [row])[..|audit|] == audit;
  }

  /** At most one row for each audited request, none for the others. */
  ghost predicate CountsFit(audit: seq<AuditRow>, audited: set<nat>) {
    forall i: nat :: AuditCount(audit, i) <= (if i in audited then 1 else 0)
  }

  lemma CountsGrow(audit: seq<AuditRow>, audited: set<nat>, row: AuditRow)
    requires CountsFit(audit, audited) && row.request !in audited
    ensures CountsFit(audit + [row], audited + {row.request})
  {
    forall i: nat { AuditGrows(audit, row, i); }
  }

  lemma AuditStepKeeps<B>(s: Sys<B>, e: Event, s': Sys<B>)
    requires AuditedOnce(s) && StepBy(s, e, s')
    ensures AuditedOnce(s')
  {
    if e.Transacts? {
      CountsGrow(s.store.audit, s.audited, AuditRow(e.i, true));
    } else if e.Finishes? && e.i !in s.audited {
      CountsGrow(s.store.audit, s.audited, AuditRow(e.i, s.pcs[e.i].Replaying?));
    }
  }

  /** No request is audited twice, also not one that throws after its commit; takeovers do not matter. */
  lemma {:induction false} NeverAuditedTwice<B>(trace: seq<Sys<B>>, events: seq<Event>, k: nat, i: nat)
    requires Run(trace, events) && k < |trace|
    ensures AuditedOnce(trace[k]) && AuditCount(trace[k].store.audit, i) <= 1
  {
    if k > 0 {
      NeverAuditedTwice(trace, events, k - 1, i);
      AuditStepKeeps(trace[k - 1], events[k - 1], trace[k]);
    }
  }
}
