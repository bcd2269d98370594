/**
 What the callers of mutations are told, traced back over every run: a live answer to the build that committed, any
 other one to the receipt that the request met, and a replay to the live answer it repeats.
 */
module Answers {
  import opened Wrappers
  import opened JsonText
  import opened Receipts
  import opened MutationProtocol
  import opened Takeover

  // --- Live answers -----------------------------------------------------------------

  /** The response for this data: nothing for 204, otherwise the data, if any, under the request's id. */
  predicate Shows(status: int, body: Option<Text>, data: Option<Json>, requestId: Text) {
    var id := Member(Ascii("requestId"), Str(requestId));
    body == if status == 204 then None
            else if data.None? then Some(Print(Obj([id])))
            else Some(Print(Obj([Member(Ascii("data"), data.value), id])))
  }

  /** Request `i` committed by event `n`, with what its build made of the store at that moment. */
  ghost predicate CommitsAt<B>(trace: seq<Sys<B>>, events: seq<Event>, n: nat, i: nat, answer: Answer) {
    && n < |events| < |trace| && events[n].Transacts? && events[n].i == i && trace[n].Has(i)
    && trace[n].pcs[i].Claimed? && trace[n + 1].Has(i) && trace[n + 1].pcs[i] == Committed(answer)
    && trace[n].specs[i].build(trace[n].store.biz).Builds?
    && trace[n].specs[i].build(trace[n].store.biz).answer == answer
  }

  /** What request `i` has to say if it has committed: it still holds its answer, or has given it. */
  ghost predicate Tells<B>(s: Sys<B>, i: nat, answer: Answer) {
    && s.Has(i)
    && match s.pcs[i]
       case Committed(held) => held == answer
       case Answered(Live(status, body)) =>
         status == answer.status && Shows(status, body, answer.data, s.specs[i].requestId)
       case _ => false
  }

  predicate IsLive(pc: Pc) { pc.Committed? || (pc.Answered? && pc.response.Live?) }

  lemma KeysSpelled()
    ensures DATA == Ascii("data") && REQUEST_ID == Ascii("requestId")
  {
  }

  lemma EnvelopeShows(status: int, data: Option<Json>, requestId: Text)
    requires status != 204
    ensures Shows(status, Some(Print(Envelope(data, requestId))), data, requestId)
  {
    KeysSpelled();
    var id := Member(REQUEST_ID, Str(requestId));
    if data.Some? {
      assert [Member(DATA, data.value)] + [id] == [Member(DATA, data.value), id];
    } else {
      assert [] + [id] == [id];
    }
  }

  lemma RespondTells<B>(s: Sys<B>, s': Sys<B>, i: nat, answer: Answer)
    requires StepBy(s, Responds(i, false), s') && s.Has(i) && s.pcs[i] == Committed(answer)
    ensures Tells(s', i, answer)
  {
    if answer.status != 204 { EnvelopeShows(answer.status, answer.data, s.specs[i].requestId); }
  }

  ghost predicate NoLiveRefusal<B>(s: Sys<B>) {
    forall i :: 0 <= i < |s.pcs| && s.pcs[i].Refusing? ==> !s.pcs[i].response.Live?
  }

  lemma {:induction false} RefusalsAreNotLive<B>(trace: seq<Sys<B>>, events: seq<Event>, k: nat)
    requires Run(trace, events) && k < |trace|
    ensures NoLiveRefusal(trace[k])
  {
    if k > 0 {
      RefusalsAreNotLive(trace, events, k - 1);
      RefusalStep(trace[k - 1], events[k - 1], trace[k]);
    }
  }

  lemma RefusalStep<B>(s: Sys<B>, e: Event, s': Sys<B>)
    requires StepBy(s, e, s') && NoLiveRefusal(s)
    ensures NoLiveRefusal(s')
  {
  }

  /** A step leaves other requests alone, and brings this one to an answer only by its commit or its response. */
  lemma LiveStep<B>(s: Sys<B>, e: Event, s': Sys<B>, i: nat)
    requires StepBy(s, e, s') && s'.Has(i) && IsLive(s'.pcs[i]) && NoLiveRefusal(s)
    ensures s.Has(i) && s.specs == s'.specs
    ensures s'.pcs[i] == s.pcs[i] ||
      e == Responds(i, false) ||
      (e.Transacts? && e.i == i && s.pcs[i].Claimed? && s.specs[i].build(s.store.biz).Builds? &&
       s'.pcs[i] == Committed(s.specs[i].build(s.store.biz).answer))
  {
    if !e.Ticks? && e.i != i { assert s'.pcs[i] == s.pcs[i]; }
  }

  /**
   Over every run: who holds or has been given a live answer committed, with the answer of its build, and the
   response has all of that answer's data, one-time material included.
   */
  lemma {:induction false} LiveAnswersAreWhole<B>(trace: seq<Sys<B>>, events: seq<Event>, k: nat, i: nat)
    returns (n: nat, answer: Answer)
    requires Run(trace, events) && k < |trace| && trace[k].Has(i) && IsLive(trace[k].pcs[i])
    ensures n < k && CommitsAt(trace, events, n, i, answer) && trace[n].specs == trace[k].specs
    ensures Tells(trace[k], i, answer)
  {
    assert k > 0;
    RefusalsAreNotLive(trace, events, k - 1);
    LiveStep(trace[k - 1], events[k - 1], trace[k], i);
    if events[k - 1].Transacts? && trace[k].pcs[i] != trace[k - 1].pcs[i] {
      n, answer := k - 1, trace[k].pcs[i].answer;
    } else {
      n, answer := LiveAnswersAreWhole(trace, events, k - 1, i);
      if trace[k].pcs[i] != trace[k - 1].pcs[i] { RespondTells(trace[k - 1], trace[k], i, answer); }
    }
  }

  // --- The other answers --------------------------------------------------------------

  /** The answer a request is going to get, or has got, that did not commit and did not fail. */
  function Verdict(pc: Pc): Option<Response> {
    match pc
    case Replaying(receipt) => Some(Replayed(receipt.status, receipt.body))
    case Refusing(response) => if response.Failure? then None else Some(response)
    case Answered(response) => if response.Failure? || response.Live? then None else Some(response)
    case _ => None
  }

  /** What the request met under its key: somebody else's row, one that is still at work, or the stored answer. */
  ghost predicate Meets<B>(s: Sys<B>, i: nat, response: Response) {
    && s.Has(i) && s.specs[i].key in s.store.rows
    && var (spec, row) := (s.specs[i], s.store.rows[s.specs[i].key]);
    && !(row.state.Pending? && s.now - row.createdAt > 60_000)
    && response == if row.action != spec.action || row.requestHash != spec.hash then Conflict
                   else if row.state.Pending? then InProgress else Replayed(row.status, row.body)
  }

  lemma VerdictStep<B>(s: Sys<B>, e: Event, s': Sys<B>, i: nat)
    requires StepBy(s, e, s') && s'.Has(i) && Verdict(s'.pcs[i]).Some?
    ensures s.Has(i) && s.specs == s'.specs
    ensures Verdict(s'.pcs[i]) == Verdict(s.pcs[i]) || (e == Begins(i) && Meets(s, i, Verdict(s'.pcs[i]).value))
  {
  }

  /** Over every run: a conflict, a request in progress and a replay are what the request met when it began. */
  lemma {:induction false} AnswersSayWhatWasMet<B>(trace: seq<Sys<B>>, events: seq<Event>, k: nat, i: nat)
    returns (n: nat)
    requires Run(trace, events) && k < |trace| && trace[k].Has(i) && Verdict(trace[k].pcs[i]).Some?
    ensures n < k && n < |events| && events[n] == Begins(i) && trace[n].specs == trace[k].specs
    ensures Meets(trace[n], i, Verdict(trace[k].pcs[i]).value)
  {
    assert k > 0;
    VerdictStep(trace[k - 1], events[k - 1], trace[k], i);
    if Verdict(trace[k].pcs[i]) == Verdict(trace[k - 1].pcs[i]) {
      n := AnswersSayWhatWasMet(trace, events, k - 1, i);
    } else {
      n := k - 1;
    }
  }

  // --- Replays ------------------------------------------------------------------------

  predicate Subsequence(r: seq<Member<Json>>, ms: seq<Member<Json>>) {
    if |r| == 0 then true
    else |ms| > 0 && ((r[0] == ms[0] && Subsequence(r[1..], ms[1..])) || Subsequence(r, ms[1..]))
  }

  /** The same data without the one-time fields, in the same order; data that is no object is shown as it is. */
  ghost predicate Hides(data: Option<Json>, oneTime: set<Text>, shown: Option<Json>) {
    if data.Some? && data.value.Obj? then
      && shown.Some? && shown.value.Obj? && Subsequence(shown.value.members, data.value.members)
      && forall m :: m in shown.value.members <==> m in data.value.members && m.key !in oneTime
    else shown == data
  }

  /** A body that shows the answer of request id `requestId` but for its one-time fields. */
  ghost predicate Repeats(answer: Answer, requestId: Text, status: int, body: Option<Text>) {
    status == answer.status &&
      exists shown :: Hides(answer.data, answer.oneTime, shown) && Shows(status, body, shown, requestId)
  }

  lemma {:induction false} TakeOrSkip(m: Member<Json>, r: seq<Member<Json>>, ms: seq<Member<Json>>)
    requires Subsequence(r, ms)
    ensures Subsequence([m] + r, [m] + ms) && Subsequence(r, [m] + ms)
  {
    assert ([m] + r)[1..] == r && ([m] + ms)[1..] == ms;
  }

  lemma {:induction false} WithoutIsSubsequence(ms: seq<Member<Json>>, fields: set<Text>)
    ensures Subsequence(Without(ms, fields), ms)
  {
    if |ms| > 0 {
      var rest := Without(ms[1..], fields);
      WithoutIsSubsequence(ms[1..], fields);
      TakeOrSkip(ms[0], rest, ms[1..]);
      assert [ms[0]] + ms[1..] == ms && [] + rest == rest;
    }
  }

  lemma StoredRepeats(answer: Answer, requestId: Text)
    ensures Repeats(answer, requestId, answer.status, StoredBody(answer, requestId))
  {
    if answer.data.Some? && answer.data.value.Obj? {
      WithoutIsSubsequence(answer.data.value.members, answer.oneTime);
    }
    assert Hides(answer.data, answer.oneTime, Redacted(answer));
    if answer.status != 204 { EnvelopeShows(answer.status, Redacted(answer), requestId); }
    assert Shows(answer.status, StoredBody(answer, requestId), Redacted(answer), requestId);
  }

  lemma CommitsStep<B>(s: Sys<B>, e: Event, s': Sys<B>)
    requires StepBy(s, e, s')
    ensures s.specs == s'.specs
    ensures s'.commits == s.commits ||
      (e.Transacts? && s.Has(e.i) && s'.Has(e.i) && s.pcs[e.i].Claimed? && s.specs[e.i].build(s.store.biz).Builds? &&
       var answer := s.specs[e.i].build(s.store.biz).answer;
       s'.pcs[e.i] == Committed(answer) &&
       s'.commits ==
         s.commits + [Commit(e.i, answer.status, StoredBody(answer, s.specs[e.i].requestId))])
  {
  }

  /** What is on record of a commit is what its build answered, but for the one-time fields. */
  lemma {:induction false} CommitTracedBack<B>(trace: seq<Sys<B>>, events: seq<Event>, k: nat, c: nat)
    returns (n: nat, answer: Answer)
    requires Run(trace, events) && k < |trace| && c < |trace[k].commits|
    ensures n < k && CommitsAt(trace, events, n, trace[k].commits[c].request, answer)
    ensures trace[n].specs == trace[k].specs
    ensures var commit := trace[k].commits[c];
      Repeats(answer, trace[n].specs[commit.request].requestId, commit.status, commit.body)
  {
    assert k > 0;
    CommitsStep(trace[k - 1], events[k - 1], trace[k]);
    if c < |trace[k - 1].commits| {
      n, answer := CommitTracedBack(trace, events, k - 1, c);
    } else {
      var i := events[k - 1].i;
      n, answer := k - 1, trace[k].pcs[i].answer;
      StoredRepeats(answer, trace[n].specs[i].requestId);
    }
  }

  /** A commit completes its key, and no request with that key commits later. */
  lemma OneCommitPerKey<B>(trace: seq<Sys<B>>, events: seq<Event>, n: nat, i: nat, a: Answer, m: nat, q: nat, b: Answer)
    requires SafeRun(trace, events) && CommitsAt(trace, events, n, i, a) && CommitsAt(trace, events, m, q, b)
    requires trace[n].specs == trace[m].specs && trace[n].specs[i].key == trace[n].specs[q].key
    ensures n == m && i == q && a == b
  {
    if n < m {
      NoLaterCommit(trace, events, n, i, a, m, q);
    } else if m < n {
      NoLaterCommit(trace, events, m, q, b, n, i);
    }
  }

  lemma NoLaterCommit<B>(trace: seq<Sys<B>>, events: seq<Event>, n: nat, i: nat, a: Answer, m: nat, q: nat)
    requires SafeRun(trace, events) && CommitsAt(trace, events, n, i, a) && n < m < |trace| && trace[m].Has(q)
    requires trace[n].specs == trace[m].specs && q < |trace[m].specs| && trace[m].specs[q].key == trace[n].specs[i].key
    ensures !trace[m].pcs[q].Claimed?
  {
    Reachable(trace, events, n + 1);
    CommitsStep(trace[n], events[n], trace[n + 1]);
    CompletedForever(trace, events, n + 1, m, trace[n].specs[i].key);
    Reachable(trace, events, m);
  }

  /** A replay repeats the answer of a commit of its key. */
  lemma ReplayRepeatsACommit<B>(trace: seq<Sys<B>>, events: seq<Event>, k: nat, r: nat)
    returns (n: nat, q: nat, answer: Answer)
    requires SafeRun(trace, events) && k < |trace| && trace[k].Has(r)
    requires trace[k].pcs[r].Answered? && trace[k].pcs[r].response.Replayed?
    ensures n < k && CommitsAt(trace, events, n, q, answer) && trace[n].specs == trace[k].specs
    ensures trace[n].specs[q].key == trace[n].specs[r].key
    ensures var response := trace[k].pcs[r].response;
      Repeats(answer, trace[n].specs[q].requestId, response.status, response.body)
  {
    var key := trace[k].specs[r].key;
    var met := AnswersSayWhatWasMet(trace, events, k, r);
    CompletedMeansCommitted(trace, events, met, key);
    var c: nat :| IsCommitOf(trace[met], c, key);
    q := trace[met].commits[c].request;
    n, answer := CommitTracedBack(trace, events, met, c);
  }

  /**
   The live answer and every replay of it: the same status, and the same data under the same request id, but for the
   one-time fields, which only the live answer shows.
   */
  lemma ReplayHidesOnlyOneTime<B>(trace: seq<Sys<B>>, events: seq<Event>, k: nat, i: nat, r: nat)
    returns (answer: Answer)
    requires SafeRun(trace, events) && k < |trace| && trace[k].Has(i) && trace[k].Has(r)
    requires trace[k].specs[i].key == trace[k].specs[r].key
    requires trace[k].pcs[i].Answered? && trace[k].pcs[i].response.Live?
    requires trace[k].pcs[r].Answered? && trace[k].pcs[r].response.Replayed?
    ensures var (live, replay) := (trace[k].pcs[i].response, trace[k].pcs[r].response);
      && live.status == replay.status == answer.status
      && Shows(live.status, live.body, answer.data, trace[k].specs[i].requestId)
      && Repeats(answer, trace[k].specs[i].requestId, replay.status, replay.body)
  {
    var n, a := LiveAnswersAreWhole(trace, events, k, i);
    var m, q, b := ReplayRepeatsACommit(trace, events, k, r);
    OneCommitPerKey(trace, events, n, i, a, m, q, b);
    answer := a;
  }

  // --- The service audit -----------------------------------------------------------------

  ghost predicate Did<B>(s: Sys<B>, i: nat) { exists c :: 0 <= c < |s.commits| && s.commits[c].request == i }

  predicate IsReplay(pc: Pc) { pc.Answered? && pc.response.Replayed? }

  ghost predicate RowTells<B>(s: Sys<B>, row: AuditRow) {
    && s.Has(row.request)
    && (row.ok ==> Did(s, row.request) || IsReplay(s.pcs[row.request]))
    && (!row.ok ==> !Did(s, row.request) && s.pcs[row.request].Answered? && !IsReplay(s.pcs[row.request]))
  }

  ghost predicate AuditInv<B>(s: Sys<B>) {
    && |s.pcs| == |s.specs| && (forall a :: 0 <= a < |s.store.audit| ==> RowTells(s, s.store.audit[a]))
    && (forall c :: 0 <= c < |s.commits| ==> s.commits[c].request in s.audited)
    && (forall i :: 0 <= i < |s.pcs| && (s.pcs[i].Committed? || s.pcs[i] == Failing(true)) ==> i in s.audited)
    && (forall i :: 0 <= i < |s.pcs| && s.pcs[i].Refusing? ==> !s.pcs[i].response.Replayed?)
  }

  /** Rows about other requests, and rows about this one that stay true. */
  lemma RowsStayTrue<B>(s: Sys<B>, e: Event, s': Sys<B>, a: nat)
    requires AuditInv(s) && StepBy(s, e, s') && a < |s.store.audit|
    ensures RowTells(s', s.store.audit[a])
  {
    var i := s.store.audit[a].request;
    assert RowTells(s, s.store.audit[a]);
    if Did(s, i) {
      var c :| 0 <= c < |s.commits| && s.commits[c].request == i;
      assert s'.commits[c] == s.commits[c];
    }
    if !e.Ticks? && e.i != i { assert s'.pcs[i] == s.pcs[i]; }
    CommitsStep(s, e, s');
  }

  lemma AuditStep<B>(s: Sys<B>, e: Event, s': Sys<B>)
    requires AuditInv(s) && StepBy(s, e, s')
    ensures AuditInv(s')
  {
    forall a | 0 <= a < |s'.store.audit| ensures RowTells(s', s'.store.audit[a]) {
      if a < |s.store.audit| {
        RowsStayTrue(s, e, s', a);
        assert s'.store.audit[a] == s.store.audit[a];
      } else if e.Transacts? {
        assert s'.commits[|s.commits|].request == e.i;
      }
    }
  }

  /** Over every run: the audit calls a request done exactly when it committed or was given a replay. */
  lemma {:induction false} AuditTells<B>(trace: seq<Sys<B>>, events: seq<Event>, k: nat)
    requires Run(trace, events) && k < |trace|
    ensures AuditInv(trace[k])
    ensures forall a :: 0 <= a < |trace[k].store.audit| ==>
      var row := trace[k].store.audit[a];
      trace[k].Has(row.request) && (row.ok <==> Did(trace[k], row.request) || IsReplay(trace[k].pcs[row.request]))
  {
    if k > 0 {
      AuditTells(trace, events, k - 1);
      AuditStep(trace[k - 1], events[k - 1], trace[k]);
    }
    forall a | 0 <= a < |trace[k].store.audit| ensures RowTells(trace[k], trace[k].store.audit[a]) {}
  }

  // --- Every request can be answered --------------------------------------------------------

  /** How many steps a request is from its answer at most. */
  function Distance(pc: Pc): nat {
    match pc
    case Arrived => 4
    case Claimed => 3
    case Committed(_) => 2
    case Failing(_) => 2
    case Replaying(_) => 1
    case Refusing(_) => 1
    case _ => 0
  }

  /** The request's next step when nothing fails. */
  ghost function NextEvent(pc: Pc, i: nat): Event {
    match pc
    case Arrived => Begins(i)
    case Claimed => Transacts(i, Faults(false, false, false, false, false))
    case Committed(_) => Responds(i, false)
    case Failing(_) => Abandons(i, false)
    case _ => Finishes(i, false)
  }

  ghost function Finishing<B>(s: Sys<B>, i: nat, response: Response, done: bool): Sys<B>
    requires s.Has(i)
  {
    s.To(i, Answered(response)).(
      store := if i in s.audited then s.store else s.store.(audit := s.store.audit + [AuditRow(i, done)]),
      audited := s.audited + {i})
  }

  lemma OneStepCloser<B>(s: Sys<B>, i: nat) returns (s': Sys<B>)
    requires s.Has(i) && !s.pcs[i].Answered? && !s.pcs[i].Crashed?
    ensures StepBy(s, NextEvent(s.pcs[i], i), s') && s'.Has(i) && !s'.pcs[i].Crashed?
    ensures Distance(s'.pcs[i]) < Distance(s.pcs[i])
  {
    var spec := s.specs[i];
    match s.pcs[i]
    case Arrived =>
      var (claim, rows) := Begin(s.store.rows, spec.key, spec.action, spec.hash, spec.requestId, s.now);
      s' := s.To(i, PcAfterClaim(spec, claim)).(store := s.store.(rows := rows),
        claimant := if claim.Started? then s.claimant[spec.key := i] else s.claimant);
    case Claimed =>
      s' := if spec.build(s.store.biz).Builds? then Committing(s, i) else s.To(i, Failing(false));
    case Committed(answer) => s' := s.To(i, Answered(Live(answer.status, LiveBody(answer, spec.requestId))));
    case Failing(_) =>
      s' := s.To(i, Refusing(Failure)).(store := s.store.(rows := Abandon(s.store.rows, spec.key)));
    case Replaying(receipt) => s' := Finishing(s, i, Replayed(receipt.status, receipt.body), true);
    case Refusing(response) => s' := Finishing(s, i, response, false);
  }

  /** Whatever the others have done, a request that has not crashed is answered within four steps of its own. */
  lemma CanBeAnswered<B>(s: Sys<B>, i: nat) returns (states: seq<Sys<B>>, events: seq<Event>)
    requires s.Has(i) && !s.pcs[i].Crashed?
    ensures Steps(states, events) && states[0] == s && |events| <= 4
    ensures forall k :: 0 <= k < |events| ==> !events[k].Ticks? && events[k].i == i
    ensures states[|events|].Has(i) && states[|events|].pcs[i].Answered?
  {
    states, events := AnsweredWithin(s, i);
  }

  lemma {:induction false} AnsweredWithin<B>(s: Sys<B>, i: nat) returns (states: seq<Sys<B>>, events: seq<Event>)
    requires s.Has(i) && !s.pcs[i].Crashed?
    ensures Steps(states, events) && states[0] == s && |events| <= Distance(s.pcs[i])
    ensures forall k :: 0 <= k < |events| ==> !events[k].Ticks? && events[k].i == i
    ensures states[|events|].Has(i) && states[|events|].pcs[i].Answered?
    decreases Distance(s.pcs[i])
  {
    if s.pcs[i].Answered? {
      states, events := [s], [];
    } else {
      var s' := OneStepCloser(s, i);
      states, events := AnsweredWithin(s', i);
      StepsCons(s, NextEvent(s.pcs[i], i), states, events);
      states, events := [s] + states, [NextEvent(s.pcs[i], i)] + events;
    }
  }
}
