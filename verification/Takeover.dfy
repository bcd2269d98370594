/**
 What the takeover of stale claims costs the mutation protocol. It needs the displaced claimant to be dead, and it
 keeps the first claimant's action and hash in the row, whoever completes it.
 */
module Takeover {
  import opened Wrappers
  import opened JsonText
  import opened Receipts
  import opened MutationProtocol

  ghost function Committing<B>(s: Sys<B>, i: nat): Sys<B>
    requires s.Has(i) && s.specs[i].build(s.store.biz).Builds?
  {
    var Builds(answer, biz) := s.specs[i].build(s.store.biz);
    var spec := s.specs[i];
    var body := StoredBody(answer, spec.requestId);
    s.To(i, Committed(answer))
     .(store := Store(biz, Complete(s.store.rows, spec.key, answer.status, body), s.store.audit + [AuditRow(i, true)]),
       audited := s.audited + {i},
       commits := s.commits + [Commit(i, answer.status, body)],
       commitOf := s.commitOf[spec.key := |s.commits|])
  }

  ghost function Claiming<B>(s: Sys<B>, i: nat): Sys<B>
    requires s.Has(i) && s.specs[i].key in s.store.rows
  {
    var spec := s.specs[i];
    s.To(i, Claimed).(
      store := s.store.(rows := s.store.rows[spec.key := TakenOver(s.store.rows[spec.key], spec.requestId, s.now)]),
      claimant := s.claimant[spec.key := i])
  }

  /** Displacing a claimant that is still alive lets the key commit twice: the assumption is needed. */
  lemma LiveTakeoverCommitsTwice<B>(s: Sys<B>, q: nat, i: nat)
    requires Inv(s) && s.Has(q) && s.Has(i) && s.pcs[q].Claimed? && s.pcs[i].Arrived?
    requires s.specs[q].key == s.specs[i].key && Stale(s.store.rows[s.specs[i].key], s.now)
    requires forall b :: s.specs[q].build(b).Builds? && s.specs[i].build(b).Builds?
    ensures var s1 := Claiming(s, i); var s2 := Committing(s1, i); var s3 := Committing(s2, q);
      && StepBy(s, Begins(i), s1) && !Safe(s, Begins(i), s1)
      && StepBy(s1, Transacts(i, NO_FAULTS), s2) && StepBy(s2, Transacts(q, NO_FAULTS), s3)
      && |s3.commits| == |s.commits| + 2 && s3.commits[|s.commits|].request == i &&
            s3.commits[|s.commits| + 1].request == q
  {
    assert i != q;
  }

  /** Request `q` gave up before its commit: it deletes the pending row of its key, whoever claimed that since. */
  ghost function Abandoning<B>(s: Sys<B>, q: nat): Sys<B>
    requires s.Has(q)
  {
    s.To(q, Refusing(Failure)).(store := s.store.(rows := Abandon(s.store.rows, s.specs[q].key)))
  }

  /** Request `r` finds no row for its key and claims it. */
  ghost function ClaimingAnew<B>(s: Sys<B>, r: nat): Sys<B>
    requires s.Has(r)
  {
    var spec := s.specs[r];
    s.To(r, Claimed).(
      store := s.store.(rows := s.store.rows[spec.key := Fresh(spec.action, spec.hash, spec.requestId, s.now)]),
      claimant := s.claimant[spec.key := r])
  }

  /** The two last states of a path differ from its first in two more commits, both of this key. */
  ghost predicate CommitsTwice<B>(s: Sys<B>, t: Sys<B>, key: Text) {
    |t.commits| == |s.commits| + 2 && IsCommitOf(t, |s.commits|, key) && IsCommitOf(t, |s.commits| + 1, key)
  }

  /** Two requests of one key that both take it for theirs both commit. */
  lemma BothCommit<B>(s: Sys<B>, i: nat, r: nat)
    requires s.Has(i) && s.Has(r) && i != r && s.pcs[i].Claimed? && s.pcs[r].Claimed?
    requires s.specs[r].key == s.specs[i].key && s.specs[i].key in s.store.rows
    requires forall b :: s.specs[i].build(b).Builds? && s.specs[r].build(b).Builds?
    ensures var t := Committing(s, r); var u := Committing(t, i);
      && StepBy(s, Transacts(r, NO_FAULTS), t) && StepBy(t, Transacts(i, NO_FAULTS), u)
      && CommitsTwice(s, u, s.specs[i].key)
  {
  }

  /**
   Displacing a claimant that has failed and has still to release the key: it releases the new claim, and a third
   request claims the key afresh, which is safe. Two requests now take the key for theirs.
   */
  lemma LateAbandonReopens<B>(s: Sys<B>, q: nat, i: nat, r: nat)
    requires Inv(s) && s.Has(q) && s.Has(i) && s.Has(r) && i != r
    requires s.pcs[q] == Failing(false) && s.pcs[i].Arrived? && s.pcs[r].Arrived?
    requires s.specs[q].key == s.specs[i].key == s.specs[r].key && Stale(s.store.rows[s.specs[i].key], s.now)
    ensures var key := s.specs[i].key;
      var s1 := Claiming(s, i); var s2 := Abandoning(s1, q); var s3 := ClaimingAnew(s2, r);
      && StepBy(s, Begins(i), s1) && !Safe(s, Begins(i), s1)
      && StepBy(s1, Abandons(q, false), s2) && StepBy(s2, Begins(r), s3) && Safe(s2, Begins(r), s3)
      && s3.Has(i) && s3.Has(r) && s3.pcs[i].Claimed? && s3.pcs[r].Claimed? && key in s3.store.rows
      && s3.commits == s.commits
  {
  }

  // --- Every breach of the assumption ---------------------------------------------

  /** Every row was claimed by a request of its key. */
  ghost predicate ClaimsFit<B>(s: Sys<B>) {
    && |s.pcs| == |s.specs|
    && forall key :: key in s.store.rows ==>
         key in s.claimant && s.claimant[key] < |s.specs| && s.specs[s.claimant[key]].key == key
  }

  lemma ClaimsFitStep<B>(s: Sys<B>, e: Event, s': Sys<B>)
    requires ClaimsFit(s) && StepBy(s, e, s')
    ensures ClaimsFit(s')
  {
  }

  /** Also in runs that are not safe. */
  lemma {:induction false} ClaimsAlwaysFit<B>(trace: seq<Sys<B>>, events: seq<Event>, k: nat)
    requires Run(trace, events) && k < |trace|
    ensures ClaimsFit(trace[k])
  {
    if k > 0 {
      ClaimsAlwaysFit(trace, events, k - 1);
      ClaimsFitStep(trace[k - 1], events[k - 1], trace[k]);
    }
  }

  /** Consecutive states, by these events. */
  ghost predicate Steps<B>(states: seq<Sys<B>>, events: seq<Event>) {
    && |states| == |events| + 1
    && forall k {:trigger events[k]} :: 0 <= k < |events| ==> StepBy(states[k], events[k], states[k + 1])
  }

  lemma StepsCons<B>(s: Sys<B>, e: Event, states: seq<Sys<B>>, events: seq<Event>)
    requires Steps(states, events) && StepBy(s, e, states[0])
    ensures Steps([s] + states, [e] + events)
  {
    assert forall k :: 0 < k < |events| + 1 ==> ([e] + events)[k] == events[k - 1];
  }

  /** What breaks the assumption in a reachable state: the displaced claimant can still act. */
  lemma BreachIs<B>(s: Sys<B>, s1: Sys<B>, i: nat)
    requires Inv(s) && ClaimsFit(s) && Displaces(s, s1, i) && !Safe(s, Begins(i), s1)
    ensures var key := s.specs[i].key;
      && key in s.claimant && s.Has(s.claimant[key]) && Alive(s.pcs[s.claimant[key]])
      && s.specs[s.claimant[key]].key == key
      && Stale(s.store.rows[key], s.now) && s1 == Claiming(s, i)
  {
  }

  lemma LiveBreach<B>(s: Sys<B>, q: nat, i: nat) returns (states: seq<Sys<B>>, events: seq<Event>)
    requires Inv(s) && s.Has(q) && s.Has(i) && s.pcs[q].Claimed? && s.pcs[i].Arrived?
    requires s.specs[q].key == s.specs[i].key && Stale(s.store.rows[s.specs[i].key], s.now)
    requires forall b :: s.specs[q].build(b).Builds? && s.specs[i].build(b).Builds?
    ensures Steps(states, events) && states[0] == Claiming(s, i) && CommitsTwice(s, states[|events|], s.specs[i].key)
  {
    LiveTakeoverCommitsTwice(s, q, i);
    var s1 := Claiming(s, i);
    var s2 := Committing(s1, i);
    var s3 := Committing(s2, q);
    StepsCons(s2, Transacts(q, NO_FAULTS), [s3], []);
    StepsCons(s1, Transacts(i, NO_FAULTS), [s2] + [s3], [Transacts(q, NO_FAULTS)] + []);
    states := [s1] + ([s2] + [s3]);
    events := [Transacts(i, NO_FAULTS)] + ([Transacts(q, NO_FAULTS)] + []);
    assert states[|events|] == s3;
  }

  /** The two that take the key for theirs after a late release both commit. */
  lemma LateAbandonCommitsTwice<B>(s: Sys<B>, q: nat, i: nat, r: nat)
    returns (states: seq<Sys<B>>, events: seq<Event>)
    requires Inv(s) && s.Has(q) && s.Has(i) && s.Has(r) && i != r
    requires s.pcs[q] == Failing(false) && s.pcs[i].Arrived? && s.pcs[r].Arrived?
    requires s.specs[q].key == s.specs[i].key == s.specs[r].key && Stale(s.store.rows[s.specs[i].key], s.now)
    requires forall b :: s.specs[i].build(b).Builds? && s.specs[r].build(b).Builds?
    ensures events == [Abandons(q, false), Begins(r), Transacts(r, NO_FAULTS), Transacts(i, NO_FAULTS)]
    ensures Steps(states, events) && states[0] == Claiming(s, i) && CommitsTwice(s, states[|events|], s.specs[i].key)
  {
    LateAbandonReopens(s, q, i, r);
    var s1 := Claiming(s, i);
    var s2 := Abandoning(s1, q);
    var s3 := ClaimingAnew(s2, r);
    BothCommit(s3, i, r);
    var s4 := Committing(s3, r);
    var s5 := Committing(s4, i);
    states, events := FourSteps(s1, Abandons(q, false), s2, Begins(r), s3, Transacts(r, NO_FAULTS), s4,
      Transacts(i, NO_FAULTS), s5);
  }

  lemma FourSteps<B>(s1: Sys<B>, e1: Event, s2: Sys<B>, e2: Event, s3: Sys<B>, e3: Event, s4: Sys<B>, e4: Event,
        s5: Sys<B>)
    returns (states: seq<Sys<B>>, events: seq<Event>)
    requires StepBy(s1, e1, s2) && StepBy(s2, e2, s3) && StepBy(s3, e3, s4) && StepBy(s4, e4, s5)
    ensures events == [e1, e2, e3, e4] && states == [s1, s2, s3, s4, s5] && Steps(states, events)
  {
    states, events := [s5], [];
    StepsCons(s4, e4, states, events);
    states, events := [s4] + states, [e4] + events;
    StepsCons(s3, e3, states, events);
    states, events := [s3] + states, [e3] + events;
    StepsCons(s2, e2, states, events);
    states, events := [s2] + states, [e2] + events;
    StepsCons(s1, e1, states, events);
    states, events := [s1] + states, [e1] + events;
  }

  /**
   The assumption is needed in full. From any reachable state, whatever takeover breaks it, and whichever third
   request of the key has not begun: there are steps that go on from the takeover to two more commits of the key,
   if the changes are accepted.
   */
  lemma EveryBreachCommitsTwice<B>(s: Sys<B>, s1: Sys<B>, i: nat, r: nat)
    returns (states: seq<Sys<B>>, events: seq<Event>)
    requires Inv(s) && ClaimsFit(s) && Displaces(s, s1, i) && !Safe(s, Begins(i), s1)
    requires s.Has(r) && r != i && s.pcs[r].Arrived? && s.specs[r].key == s.specs[i].key
    requires forall n, b :: 0 <= n < |s.specs| && s.specs[n].key == s.specs[i].key ==> s.specs[n].build(b).Builds?
    ensures Steps(states, events) && states[0] == s1 && CommitsTwice(s, states[|events|], s.specs[i].key)
  {
    BreachIs(s, s1, i);
    var q := s.claimant[s.specs[i].key];
    if s.pcs[q].Claimed? {
      states, events := LiveBreach(s, q, i);
    } else {
      states, events := LateAbandonCommitsTwice(s, q, i, r);
    }
  }

  // --- The wrong replay ---------------------------------------------------------

  /** Request `i` meets a row it can answer from, or one it conflicts with. */
  ghost function Meeting<B>(s: Sys<B>, i: nat): Sys<B>
    requires s.Has(i) && s.specs[i].key in s.store.rows
  {
    var row := s.store.rows[s.specs[i].key];
    s.To(i, if Mismatch(s.specs[i], row) then Refusing(Conflict) else Replaying(row))
  }

  /**
   A different request takes over the stale claim of a dead one: every step is safe. Then a request like the dead
   one is answered with the outcome of the other, and a repeat of the other is told that the key is taken.
   */
  lemma TakeoverMisleadsReplays<B>(s: Sys<B>, i: nat, j: nat, r: nat)
    requires Inv(s) && s.Has(i) && s.Has(j) && s.Has(r) && i != j && i != r && j != r
    requires s.pcs[i].Arrived? && s.pcs[j].Arrived? && s.pcs[r].Arrived?
    requires var key := s.specs[i].key;
      && key in s.store.rows && Stale(s.store.rows[key], s.now) && Mismatch(s.specs[i], s.store.rows[key])
      && key in s.claimant && s.claimant[key] < |s.pcs| && !Alive(s.pcs[s.claimant[key]])
      && s.specs[j].key == key && !Mismatch(s.specs[j], s.store.rows[key])
      && s.specs[r].key == key && s.specs[r].action == s.specs[i].action && s.specs[r].hash == s.specs[i].hash
    requires s.specs[i].build(s.store.biz).Builds?
    ensures var answer := s.specs[i].build(s.store.biz).answer;
      var s1 := Claiming(s, i); var s2 := Committing(s1, i); var s3 := Meeting(s2, j); var s4 := Meeting(s3, r);
      && StepBy(s, Begins(i), s1) && Safe(s, Begins(i), s1)
      && StepBy(s1, Transacts(i, NO_FAULTS), s2) && StepBy(s2, Begins(j), s3) && StepBy(s3, Begins(r), s4)
      && s3.pcs[j].Replaying? && s3.pcs[j].receipt.status == answer.status
      && s3.pcs[j].receipt.body == StoredBody(answer, s.specs[i].requestId)
      && s4.pcs[r] == Refusing(Conflict)
  {
  }

  // --- When a replay answers its own request --------------------------------------

  /** Once past its claim a request never claims again. */
  lemma {:induction false} NeverClaimsAgain<B>(trace: seq<Sys<B>>, events: seq<Event>, j: nat, k: nat, i: nat)
    requires Run(trace, events) && j <= k < |trace| && trace[j].Has(i) && !trace[j].pcs[i].Arrived? &&
      !trace[j].pcs[i].Claimed?
    ensures trace[k].Has(i) && !trace[k].pcs[i].Arrived? && !trace[k].pcs[i].Claimed?
    decreases |trace| - j
  {
    if j < k {
      PastClaimStep(trace[j], events[j], trace[j + 1], i);
      NeverClaimsAgain(trace, events, j + 1, k, i);
    }
  }

  lemma PastClaimStep<B>(s: Sys<B>, e: Event, s': Sys<B>, i: nat)
    requires StepBy(s, e, s') && s.Has(i) && !s.pcs[i].Arrived?
    ensures s'.Has(i) && !s'.pcs[i].Arrived? && s'.specs == s.specs && (s'.pcs[i].Claimed? ==> s.pcs[i].Claimed?)
  {
    if !e.Ticks? && e.i != i { assert s'.pcs[i] == s.pcs[i]; }
  }

  ghost predicate SameRequest(a: Receipt, b: Receipt) { a.action == b.action && a.requestHash == b.requestHash }

  /** While a request holds its claim, nobody changes what the row was claimed for. */
  lemma HeldRowStays<B>(s: Sys<B>, e: Event, s': Sys<B>, i: nat)
    requires Inv(s) && StepBy(s, e, s') && Safe(s, e, s') && s.Has(i) && s.pcs[i].Claimed? && s'.Has(i) &&
      s'.pcs[i].Claimed?
    ensures var key := s.specs[i].key;
      s'.specs == s.specs && key in s.store.rows && key in s'.store.rows &&
        SameRequest(s'.store.rows[key], s.store.rows[key])
  {
    var key := s.specs[i].key;
    assert s.claimant[key] == i && Alive(s.pcs[i]);
  }

  lemma {:induction false} HeldRow<B>(trace: seq<Sys<B>>, events: seq<Event>, j: nat, k: nat, i: nat)
    requires SafeRun(trace, events) && j <= k < |trace| && trace[j].Has(i) && trace[j].pcs[i].Claimed?
    requires trace[k].Has(i) && trace[k].pcs[i].Claimed?
    ensures var key := trace[j].specs[i].key;
      && trace[k].specs == trace[j].specs && key in trace[j].store.rows && key in trace[k].store.rows
      && SameRequest(trace[k].store.rows[key], trace[j].store.rows[key])
    decreases |trace| - j
  {
    Reachable(trace, events, j);
    if j < k {
      PastClaimStep(trace[j], events[j], trace[j + 1], i);
      if !trace[j + 1].pcs[i].Claimed? { NeverClaimsAgain(trace, events, j + 1, k, i); }
      HeldRowStays(trace[j], events[j], trace[j + 1], i);
      HeldRow(trace, events, j + 1, k, i);
    }
  }

  /** Request `i` claims its key at step `m` of the run and commits at step `n`. */
  ghost predicate ClaimsAndCommits<B>(trace: seq<Sys<B>>, events: seq<Event>, i: nat, m: nat, n: nat) {
    && |trace| == |events| + 1 && m < n < |events| && events[m] == Begins(i) && trace[m].Has(i) &&
          trace[m + 1].Has(i) && trace[m + 1].pcs[i].Claimed?
    && trace[n].Has(i) && trace[n].pcs[i].Claimed? && trace[n + 1].Has(i) && trace[n + 1].pcs[i].Committed?
  }

  /** The claim took over a row that had been created for a different request. */
  ghost predicate TookOverAnother<B>(s: Sys<B>, i: nat)
    requires s.Has(i)
  {
    s.specs[i].key in s.store.rows && Mismatch(s.specs[i], s.store.rows[s.specs[i].key])
  }

  /**
   The receipt that `i` completed holds its answer, and carries another request's action and hash exactly when the
   claim of `i` took over another request's row.
   */
  ghost predicate AnswersFor<B>(claim: Sys<B>, done: Sys<B>, i: nat) {
    && claim.Has(i) && done.Has(i) && done.pcs[i].Committed? && done.specs == claim.specs
    && var (spec, answer) := (claim.specs[i], done.pcs[i].answer);
    && done.Completed(spec.key)
    && var row := done.store.rows[spec.key];
    && (Mismatch(spec, row) <==> TookOverAnother(claim, i))
    && row.status == answer.status && row.body == StoredBody(answer, spec.requestId)
  }

  /** Whatever happens between claim and commit. */
  lemma TakeoverAnswersForTheFirst<B>(trace: seq<Sys<B>>, events: seq<Event>, i: nat, m: nat, n: nat)
    requires SafeRun(trace, events) && ClaimsAndCommits(trace, events, i, m, n)
    ensures AnswersFor(trace[m], trace[n + 1], i)
  {
    HeldRow(trace, events, m + 1, n, i);
    Reachable(trace, events, n);
    ClaimRow(trace[m], trace[m + 1], i);
    CommitIsStep(trace[n], events[n], trace[n + 1], i);
  }

  /** The row right after the claim is the request's own, or still that of the request it was taken over from. */
  lemma ClaimRow<B>(s: Sys<B>, s': Sys<B>, i: nat)
    requires BeginStep(s, s', i) && s'.Has(i) && s'.pcs[i].Claimed?
    ensures var key := s.specs[i].key;
      s'.specs == s.specs && key in s'.store.rows &&
        (Mismatch(s.specs[i], s'.store.rows[key]) <==> TookOverAnother(s, i))
  {
  }

  lemma CommitIsStep<B>(s: Sys<B>, e: Event, s': Sys<B>, i: nat)
    requires RequestInv(s) && StepBy(s, e, s') && s.Has(i) && s.pcs[i].Claimed? && s'.Has(i) && s'.pcs[i].Committed?
    ensures var key := s.specs[i].key; var answer := s'.pcs[i].answer;
      && s'.specs == s.specs && key in s.store.rows && s'.Completed(key) &&
            SameRequest(s'.store.rows[key], s.store.rows[key])
      && s'.store.rows[key].status == answer.status &&
            s'.store.rows[key].body == StoredBody(answer, s.specs[i].requestId)
  {
    var built := s.specs[i].build(s.store.biz);
    if e.Transacts? && e.i == i && built.Builds? && Clean(e.faults) { CommitRows(s, s', i, built.answer, built.biz); }
  }

  predicate SameAs<B>(a: Spec<B>, b: Spec<B>) { a.action == b.action && a.hash == b.hash }

  /**
   `claim` is the state in which `i` claimed, `done` the one after its commit, and `met` the one after `j` began on
   the completed key. A replay shows the outcome of `i`, and `j` is a request like `i` exactly when `i` did not take
   over another request's row. If `j` is one, it gets the replay under the same condition and a conflict otherwise.
   */
  ghost predicate OwnReplay<B>(claim: Sys<B>, done: Sys<B>, met: Sys<B>, i: nat, j: nat) {
    && claim.Has(i) && done.Has(i) && met.Has(j) && claim.specs == done.specs == met.specs && j < |claim.specs| &&
          done.pcs[i].Committed?
    && var (mine, theirs, answer, pc) := (claim.specs[i], claim.specs[j], done.pcs[i].answer, met.pcs[j]);
    && (pc.Replaying? ==>
          && pc.receipt.status == answer.status && pc.receipt.body == StoredBody(answer, mine.requestId)
          && (SameAs(theirs, mine) <==> !TookOverAnother(claim, i)))
    && (SameAs(theirs, mine) ==> if TookOverAnother(claim, i) then pc == Refusing(Conflict) else pc.Replaying?)
  }

  lemma RowDecidesReplay<B>(claim: Sys<B>, done: Sys<B>, s: Sys<B>, met: Sys<B>, i: nat, j: nat)
    requires AnswersFor(claim, done, i) && s.Has(j) && s.specs == claim.specs
    requires StepBy(s, Begins(j), met) && s.specs[j].key == claim.specs[i].key
    requires var key := claim.specs[i].key; s.Completed(key) && s.store.rows[key] == done.store.rows[key]
    ensures OwnReplay(claim, done, met, i, j)
  {
  }

  lemma AnsweredRowStays<B>(trace: seq<Sys<B>>, events: seq<Event>, claim: Sys<B>, i: nat, n: nat, p: nat)
    requires SafeRun(trace, events) && n <= p < |trace| && AnswersFor(claim, trace[n], i)
    ensures var key := claim.specs[i].key;
      trace[p].Completed(key) && trace[p].store.rows[key] == trace[n].store.rows[key]
    ensures trace[p].specs == claim.specs
  {
    CompletedForever(trace, events, n, p, claim.specs[i].key);
    SpecsStay(trace, events, n, p);
  }

  lemma StepOfRun<B>(trace: seq<Sys<B>>, events: seq<Event>, p: nat)
    requires Run(trace, events) && p < |events|
    ensures StepBy(trace[p], events[p], trace[p + 1])
  {
  }

  /** Request `j` begins at step `p` on the key that `i` used. */
  ghost predicate BeginsOnKeyOf<B>(trace: seq<Sys<B>>, events: seq<Event>, claim: Sys<B>, i: nat, j: nat, p: nat) {
    && |trace| == |events| + 1 && p < |events| && events[p] == Begins(j) && trace[p].Has(j) && claim.Has(i)
    && j < |claim.specs| && claim.specs[j].key == claim.specs[i].key
  }

  /**
   When replays tell the truth, for every request `i` that claimed and committed in the run, which is when
   `TakeoverAnswersForTheFirst` gives `AnswersFor`, and for any steps between the commit and the replay.
   */
  lemma ReplayIsOwnExactlyWhen<B>(trace: seq<Sys<B>>, events: seq<Event>, claim: Sys<B>, i: nat, n: nat, j: nat, p: nat)
    requires SafeRun(trace, events) && n <= p < |trace| && AnswersFor(claim, trace[n], i)
    requires BeginsOnKeyOf(trace, events, claim, i, j, p)
    ensures OwnReplay(claim, trace[n], trace[p + 1], i, j)
  {
    AnsweredRowStays(trace, events, claim, i, n, p);
    StepOfRun(trace, events, p);
    RowDecidesReplay(claim, trace[n], trace[p], trace[p + 1], i, j);
  }

  lemma SpecsOfStep<B>(s: Sys<B>, e: Event, s': Sys<B>)
    requires StepBy(s, e, s')
    ensures s'.specs == s.specs && |s'.pcs| == |s.pcs|
  {
  }

  lemma {:induction false} SpecsStay<B>(trace: seq<Sys<B>>, events: seq<Event>, j: nat, k: nat)
    requires Run(trace, events) && j <= k < |trace|
    ensures trace[k].specs == trace[j].specs && |trace[k].pcs| == |trace[j].pcs|
    decreases |trace| - j
  {
    if j < k {
      SpecsOfStep(trace[j], events[j], trace[j + 1]);
      SpecsStay(trace, events, j + 1, k);
    }
  }

  // --- Runs in which every takeover is by the same request ----------------------------

  /** Every takeover is by the request the row was created for. */
  ghost predicate Faithful<B>(s: Sys<B>, e: Event, s': Sys<B>) {
    e.Begins? && Displaces(s, s', e.i) ==> !Mismatch(s.specs[e.i], s.store.rows[s.specs[e.i].key])
  }

  /** The rows that matter carry the action and hash of the request they stand for. */
  ghost predicate OwnHashes<B>(s: Sys<B>) {
    && (forall i :: 0 <= i < |s.pcs| == |s.specs| && Alive(s.pcs[i]) && s.specs[i].key in s.store.rows ==>
          !Mismatch(s.specs[i], s.store.rows[s.specs[i].key]))
    && (forall key :: key in s.commitOf && key in s.store.rows && s.commitOf[key] < |s.commits| &&
                      s.commits[s.commitOf[key]].request < |s.specs| ==>
          !Mismatch(s.specs[s.commits[s.commitOf[key]].request], s.store.rows[key]))
  }

  lemma BeginKeepsHashes<B>(s: Sys<B>, s': Sys<B>, i: nat)
    requires RequestInv(s) && OwnHashes(s) && BeginStep(s, s', i) && Safe(s, Begins(i), s') &&
      Faithful(s, Begins(i), s')
    requires forall key :: key in s.commitOf ==> s.Completed(key)
    ensures OwnHashes(s')
  {
  }

  lemma CommitKeepsHashes<B>(s: Sys<B>, s': Sys<B>, i: nat, answer: Answer, biz: B)
    requires RequestInv(s) && OwnHashes(s) && CommitStep(s, s', i, answer, biz)
    requires forall key :: key in s.commitOf ==> s.commitOf[key] < |s.commits|
    ensures OwnHashes(s')
  {
    CommitRows(s, s', i, answer, biz);
    var key := s.specs[i].key;
    assert s'.store.rows[key].action == s.store.rows[key].action &&
      s'.store.rows[key].requestHash == s.store.rows[key].requestHash;
  }

  lemma OtherKeepsHashes<B>(s: Sys<B>, s': Sys<B>)
    requires OwnHashes(s) && s'.store.rows == s.store.rows && s'.commits == s.commits && s'.commitOf == s.commitOf
    requires s'.specs == s.specs && |s'.pcs| == |s.pcs|
    requires forall i :: 0 <= i < |s.pcs| && Alive(s'.pcs[i]) ==> Alive(s.pcs[i])
    ensures OwnHashes(s')
  {
  }

  lemma TransactKeepsHashes<B>(s: Sys<B>, s': Sys<B>, i: nat, f: Faults)
    requires Inv(s) && OwnHashes(s) && TransactStep(s, s', i, f)
    ensures OwnHashes(s')
  {
    var built := s.specs[i].build(s.store.biz);
    if Clean(f) && built.Builds? {
      CommitKeepsHashes(s, s', i, built.answer, built.biz); } else { OtherKeepsHashes(s, s');
    }
  }

  lemma OwnHashesStep<B>(s: Sys<B>, e: Event, s': Sys<B>)
    requires Inv(s) && OwnHashes(s) && StepBy(s, e, s') && Safe(s, e, s') && Faithful(s, e, s')
    ensures OwnHashes(s')
  {
    match e
    case Begins(i) => BeginKeepsHashes(s, s', i);
    case Transacts(i, f) => TransactKeepsHashes(s, s', i, f);
    case Abandons(i, fails) => AbandonKeepsHashes(s, s', i, fails);
    case _ => OtherKeepsHashes(s, s');
  }

  lemma AbandonKeepsHashes<B>(s: Sys<B>, s': Sys<B>, i: nat, fails: bool)
    requires OwnHashes(s) && AbandonStep(s, s', i, fails)
    ensures OwnHashes(s')
  {
  }

  /** A replay, in progress or sent, shows the completed row of its key, and that row is of its own action and hash. */
  ghost predicate ReplayFits<B>(s: Sys<B>, j: nat)
    requires s.Has(j)
  {
    var key := s.specs[j].key;
    match s.pcs[j]
    case Replaying(receipt) => s.Completed(key) && receipt == s.store.rows[key] && !Mismatch(s.specs[j], receipt)
    case Answered(Replayed(status, body)) =>
      s.Completed(key) && status == s.store.rows[key].status && body == s.store.rows[key].body &&
      !Mismatch(s.specs[j], s.store.rows[key])
    case Refusing(response) => !response.Replayed?
    case _ => true
  }

  lemma ReplayFitsStep<B>(s: Sys<B>, e: Event, s': Sys<B>, j: nat)
    requires Inv(s) && StepBy(s, e, s') && s.Has(j) && ReplayFits(s, j)
    ensures s'.Has(j) && s'.specs == s.specs && ReplayFits(s', j)
  {
    SpecsOfStep(s, e, s');
    var key := s.specs[j].key;
    if e.Ticks? || e.i != j {
      assert s'.pcs[j] == s.pcs[j];
      if s.Completed(key) { StepKeepsCompleted(s, e, s', key); }
    } else {
      OwnReplayStep(s, e, s', j);
    }
  }

  lemma OwnReplayStep<B>(s: Sys<B>, e: Event, s': Sys<B>, j: nat)
    requires StepBy(s, e, s') && !e.Ticks? && e.i == j && s.Has(j) && ReplayFits(s, j)
    ensures s'.Has(j) && ReplayFits(s', j)
  {
  }

  lemma {:induction false} OwnHashesHold<B>(trace: seq<Sys<B>>, events: seq<Event>, k: nat)
    requires SafeRun(trace, events) && k < |trace|
    requires forall n :: 0 <= n < k ==> Faithful(trace[n], events[n], trace[n + 1])
    ensures OwnHashes(trace[k])
  {
    if k > 0 {
      OwnHashesHold(trace, events, k - 1);
      Reachable(trace, events, k - 1);
      OwnHashesStep(trace[k - 1], events[k - 1], trace[k]);
    }
  }

  lemma {:induction false} ReplaysFit<B>(trace: seq<Sys<B>>, events: seq<Event>, k: nat, j: nat)
    requires SafeRun(trace, events) && k < |trace| && trace[k].Has(j)
    ensures ReplayFits(trace[k], j)
  {
    if k > 0 {
      SpecsStay(trace, events, k - 1, k);
      ReplaysFit(trace, events, k - 1, j);
      Reachable(trace, events, k - 1);
      ReplayFitsStep(trace[k - 1], events[k - 1], trace[k], j);
    }
  }

  predicate Shows(pc: Pc, status: int, body: Option<Text>) {
    (pc.Replaying? && pc.receipt.status == status && pc.receipt.body == body) || pc == Answered(Replayed(status, body))
  }

  /**
   If every takeover was by the request the row was created for, every replayed answer is the answer to a committed
   mutation of the same key, action and hash as the request that gets it.
   */
  lemma ReplaysAnswerTheirOwn<B>(
      trace: seq<Sys<B>>, events: seq<Event>, k: nat, j: nat, status: int, body: Option<Text>)
    requires SafeRun(trace, events) && k < |trace| && trace[k].Has(j) && Shows(trace[k].pcs[j], status, body)
    requires forall n :: 0 <= n < k ==> Faithful(trace[n], events[n], trace[n + 1])
    ensures var s := trace[k];
      exists c: nat :: IsCommitOf(s, c, s.specs[j].key) && SameAs(s.specs[s.commits[c].request], s.specs[j]) &&
                  s.commits[c].status == status && s.commits[c].body == body
  {
    Reachable(trace, events, k);
    ReplaysFit(trace, events, k, j);
    OwnHashesHold(trace, events, k);
    var s := trace[k];
    assert s.specs[j].key in s.commitOf;
    assert IsCommitOf(s, s.commitOf[s.specs[j].key], s.specs[j].key);
  }
}
