/**
 Who gets in: what sessions and logins answer and write, row by row, and that nobody who is disabled or deleted is
 ever signed in.
 */
module SignIns {
  import opened Wrappers
  import opened JsonText
  import opened IdentityTables
  import opened IdentityBinding

  // --- Sessions -----------------------------------------------------------------------

  /** An active user who is not disabled and belongs to a workspace. */
  predicate InGoodStanding(s: Store, id: Text) {
    id in s.users && s.users[id].status == Active && s.users[id].disabledAt == None && id in s.members
  }

  predicate Unexpired(s: Store, token: Text, now: int) { token in s.sessions && s.sessions[token].expiresAt >= now }

  /** A user's session signs the user in exactly while it lasts and the user is in good standing. */
  lemma OwnSessionSignsInExactlyWhen(s: Store, token: Text, now: int, id: Text)
    requires token in s.sessions ==> s.sessions[token].userId == Some(id)
    ensures var (r, after) := Resolve(s, token, now);
      after == s && r == if Unexpired(s, token, now) && InGoodStanding(s, id) then SignedIn(id) else NoSession
  {
  }

  /** A waiting session of an email. */
  predicate WaitingFor(s: Store, token: Text, now: int, email: Text) {
    Unexpired(s, token, now) && s.sessions[token].userId == None && s.sessions[token].email == Some(email)
  }

  /** The user is not the one the session waits under. */
  predicate AnotherSubject(u: User, session: Session) {
    u.subject.Some? && session.subject.Some? && u.subject.value != session.subject.value
  }

  /** The user's row with the session's subject, if it had none. */
  predicate Bound(u: User, session: Session, after: User) {
    && after.email == u.email && after.status == u.status && after.disabledAt == u.disabledAt
    && after.mustChange == u.mustChange && after.subject == if u.subject.Some? then u.subject else session.subject
  }

  /** The session is the user's now. */
  predicate Adopted(session: Session, id: Text, after: Session) {
    && after.userId == Some(id) && after.email == None && after.subject == session.subject
    && after.refresh == session.refresh && after.expiresAt == session.expiresAt
  }

  /**
   A waiting session whose email has an active user becomes that user's, who is signed in like with any other, or is
   dropped if the user is bound to another subject.
   */
  lemma WaitingSessionIsAdopted(s: Store, token: Text, now: int, email: Text, id: Text)
    requires DistinctEmails(s.users) && WaitingFor(s, token, now, email)
    requires id in s.users && s.users[id].email == email && s.users[id].status == Active &&
      s.users[id].disabledAt == None
    ensures var (r, after) := Resolve(s, token, now);
      && after.members == s.members && after.bindings == s.bindings
      && if AnotherSubject(s.users[id], s.sessions[token])
         then r == NoSession && after.users == s.users && after.sessions == s.sessions - {token}
         else
           && r == (if id in s.members then SignedIn(id) else NoSession)
           && id in after.users && after.users == s.users[id := after.users[id]]
           && Bound(s.users[id], s.sessions[token], after.users[id])
           && token in after.sessions && after.sessions == s.sessions[token := after.sessions[token]]
           && Adopted(s.sessions[token], id, after.sessions[token])
  {
    assert UserOf(s.users, email) == Some(id);
  }

  /** Without such a user it goes on waiting; without an email, or after its time, it is no session at all. */
  lemma OtherSessionsChangeNothing(s: Store, token: Text, now: int)
    requires DistinctEmails(s.users) && (token in s.sessions ==> s.sessions[token].userId == None)
    requires Unexpired(s, token, now) ==>
      forall id :: id in s.users && s.users[id].status == Active && s.users[id].disabledAt == None ==>
        s.sessions[token].email != Some(s.users[id].email)
    ensures var (r, after) := Resolve(s, token, now);
      after == s &&
      r == if Unexpired(s, token, now) && s.sessions[token].email.Some?
           then Waiting(s.sessions[token].email.value, s.sessions[token].subject) else NoSession
  {
  }

  // --- Logins -------------------------------------------------------------------------

  predicate Barred(u: User) { u.status == Disabled || u.disabledAt.Some? }

  /** The subject a login gives: the user's own, or a new one. */
  predicate LoggedIn(u: User, newSubject: Text, after: User) {
    && after.email == u.email && after.disabledAt == u.disabledAt && after.mustChange == u.mustChange
    && after.status == Active && after.subject == if u.subject.Some? then u.subject else Some(newSubject)
  }

  /** A login by a known email: refused to the barred, else the user is active and bound, and so is the record. */
  lemma KnownLoginMeans(s: Store, email: Text, open: bool, newSubject: Text, id: Text)
    requires DistinctEmails(s.users) && id in s.users && s.users[id].email == email
    ensures var (login, after) := LogIn(s, email, open, newSubject);
      && after.members == s.members && after.sessions == s.sessions
      && if Barred(s.users[id]) then login == LoginDisabled && after == s
         else
           && id in after.users && after.users == s.users[id := after.users[id]]
           && LoggedIn(s.users[id], newSubject, after.users[id])
           && login == Linked(id, after.users[id].subject.value)
           && after.bindings == s.bindings[email := after.users[id].subject.value]
  {
    assert UserOf(s.users, email) == Some(id);
  }

  /**
   A login by an unknown one: turned away, or, while registration is open, given the subject on record or a new
   one.
   */
  lemma UnknownLoginMeans(s: Store, email: Text, open: bool, newSubject: Text)
    requires forall id :: id in s.users ==> s.users[id].email != email
    ensures var (login, after) := LogIn(s, email, open, newSubject);
      && after.users == s.users && after.members == s.members && after.sessions == s.sessions
      && if open then
           var subject := if email in s.bindings then s.bindings[email] else newSubject;
           login == Unprovisioned(subject) && after.bindings == s.bindings[email := subject]
         else login == NotInvited && after == s
  {
  }

  // --- The rows behind them -------------------------------------------------------------

  /** Provisioning adds an active and bound owner where there is a credential, a pending and unbound one otherwise. */
  lemma ProvisionMeans(s: Store, id: Text, ownerEmail: Option<Text>, subject: Option<Text>, found: Option<Text>,
        hasCredential: bool, email: Text)
    requires if subject.Some? then found == Some(email) && (ownerEmail.None? || ownerEmail == Some(email))
      else ownerEmail == Some(email)
    ensures var after := Provision(s, id, ownerEmail, subject, found, hasCredential);
      if exists other :: other in s.users && s.users[other].email == email then after == s
      else
        && after.members == s.members + {id} && after.bindings == s.bindings && after.sessions == s.sessions
        && after.users == s.users[id := if hasCredential then User(email, Active, None, subject, false)
                                        else User(email, Pending, None, None, false)]
  {
  }

  /** Without an email that both sides agree on nobody is added. */
  lemma ProvisionNeedsAnEmail(s: Store, id: Text, ownerEmail: Option<Text>, subject: Option<Text>, found: Option<Text>,
        hasCredential: bool)
    requires if subject.Some? then found.None? || (ownerEmail.Some? && ownerEmail.value != found.value)
      else ownerEmail.None?
    ensures Provision(s, id, ownerEmail, subject, found, hasCredential) == s
  {
  }

  /** Disabling sets the time, enabling clears it; whoever was ever bound is active then, and anybody else pending. */
  lemma DisablingMeans(s: Store, id: Text, at: Option<int>)
    requires id in s.users
    ensures var after := SetDisabled(s, id, at);
      && id in after.users && after == s.(users := s.users[id := after.users[id]])
      && var (u, v) := (s.users[id], after.users[id]);
      && v.email == u.email && v.subject == u.subject && v.mustChange == u.mustChange && v.disabledAt == at
      && v.status == if at.Some? then Disabled else if u.subject.Some? then Active else Pending
  {
  }

  /** A deleted user leaves no row, membership, record or session; everybody else keeps theirs. */
  lemma DeletionMeans(s: Store, id: Text)
    requires id in s.users
    ensures var after := DeleteUser(s, id);
      && (forall other :: other in after.users <==> other in s.users && other != id)
      && (forall other :: other in after.users ==> after.users[other] == s.users[other])
      && (forall other :: other in after.members <==> other in s.members && other != id)
      && (forall email :: email in after.bindings <==> email in s.bindings && email != s.users[id].email)
      && (forall email :: email in after.bindings ==> after.bindings[email] == s.bindings[email])
      && (forall token :: token in after.sessions <==> token in s.sessions && s.sessions[token].userId != Some(id))
      && (forall token :: token in after.sessions ==> after.sessions[token] == s.sessions[token])
  {
  }

  /** A new session is there until its time; opening it sweeps out exactly the expired ones. */
  lemma OpeningMeans(s: Store, token: Text, session: Session, now: int)
    ensures var after := OpenSession(s, token, session, now);
      && after.users == s.users && after.members == s.members && after.bindings == s.bindings
      && (token in after.sessions <==> session.expiresAt >= now)
      && (token in after.sessions ==> after.sessions[token] == session)
      && forall other :: other != token ==>
           && (other in after.sessions <==> other in s.sessions && s.sessions[other].expiresAt >= now)
           && (other in after.sessions ==> after.sessions[other] == s.sessions[other])
  {
  }

  /** An invited user is pending, one created with a password active; an email that is taken adds nobody. */
  lemma EnrolmentMeans(s: Sys, id: Text, email: Text)
    ensures var (invited, created) := (After(s, Invites(id, email)).store, After(s, Creates(id, email)).store);
      if exists other :: other in s.store.users && s.store.users[other].email == email
      then invited == s.store && created == s.store
      else
        && invited.users == s.store.users[id := User(email, Pending, None, None, false)]
        && created.users == s.store.users[id := User(email, Active, None, None, false)]
        && invited == s.store.(users := invited.users, members := s.store.members + {id})
        && created == s.store.(users := created.users, members := s.store.members + {id})
  {
  }

  /** The events of a run write what the calls write, and nothing a call does not return is remembered. */
  lemma EventsAreCalls(s: Sys, email: Text, open: bool, newSubject: Text, token: Text, now: int, session: Session)
    ensures After(s, LogsIn(email, open, newSubject)).store == LogIn(s.store, email, open, newSubject).1
    ensures After(s, Resolves(token, now)).store == Resolve(s.store, token, now).1
    ensures After(s, Opens(token, session, now)).store == OpenSession(s.store, token, session, now)
    ensures After(s, Closes(token)).store == s.store.(sessions := s.store.sessions - {token})
    ensures var login := LogIn(s.store, email, open, newSubject).0;
      After(s, LogsIn(email, open, newSubject)).answered ==
        s.answered + if login.Linked? || login.Unprovisioned? then {(email, login.subject)} else {}
  {
  }

  // --- Over every run -----------------------------------------------------------------

  /** Disabled for as long as there is a row, which no other user ever gets. */
  ghost predicate StaysOut(s: Sys, id: Text) {
    id in s.usedIds && (id in s.store.users ==>
      s.store.users[id].disabledAt.Some? && s.store.users[id].status.Disabled?)
  }

  lemma StaysOutStep(s: Sys, e: Event, id: Text)
    requires Inv(s) && Allowed(s, e) && StaysOut(s, id) && e != Disables(id, None)
    ensures StaysOut(After(s, e), id)
  {
    match e
    case LogsIn(email, open, newSubject) =>
    case Resolves(token, now) => ResolveTouches(s.store, token, now);
    case _ =>
  }

  lemma {:induction false} StaysOutOver(trace: seq<Sys>, events: seq<Event>, i: nat, k: nat, id: Text)
    requires Run(trace, events) && i <= k < |trace| && StaysOut(trace[i], id)
    requires forall m :: i <= m < k ==> events[m] != Disables(id, None)
    ensures StaysOut(trace[k], id)
  {
    if i < k {
      StaysOutOver(trace, events, i, k - 1, id);
      Reachable(trace, events, k - 1);
      StaysOutStep(trace[k - 1], events[k - 1], id);
    }
  }

  lemma OutIsNotSignedIn(s: Sys, token: Text, now: int, id: Text)
    requires StaysOut(s, id)
    ensures Resolve(s.store, token, now).0 != SignedIn(id)
  {
  }

  /** Over every run: whoever is disabled is not signed in, by whatever session, until enabled again. */
  lemma DisabledAreNeverSignedIn(trace: seq<Sys>, events: seq<Event>, i: nat, k: nat, id: Text, at: int, token: Text,
        now: int)
    requires Run(trace, events) && i < k < |trace| && id in trace[i].store.users && events[i] == Disables(id, Some(at))
    requires forall m :: i < m < k ==> events[m] != Disables(id, None)
    ensures Resolve(trace[k].store, token, now).0 != SignedIn(id)
  {
    Reachable(trace, events, i);
    DisablingMeans(trace[i].store, id, Some(at));
    assert trace[i + 1] == After(trace[i], events[i]);
    StaysOutOver(trace, events, i + 1, k, id);
    OutIsNotSignedIn(trace[k], token, now, id);
  }

  /** Over every run: whoever is deleted is never signed in again. */
  lemma DeletedAreNeverSignedIn(trace: seq<Sys>, events: seq<Event>, i: nat, k: nat, id: Text, token: Text, now: int)
    requires Run(trace, events) && i < k < |trace| && id in trace[i].store.users
    requires events[i] == Deletes(id) || (events[i].Purges? && id in events[i].userIds)
    ensures Resolve(trace[k].store, token, now).0 != SignedIn(id)
  {
    Reachable(trace, events, i);
    RunGrows(trace, events, i, i + 1);
    assert trace[i + 1] == After(trace[i], events[i]) && id !in trace[i + 1].store.users;
    RunGrows(trace, events, i + 1, k);
    var s := trace[k].store;
    assert id !in s.users;
    ResolveTouches(s, token, now);
  }

  lemma {:induction false} StaysClosed(trace: seq<Sys>, events: seq<Event>, i: nat, k: nat, token: Text)
    requires Run(trace, events) && i <= k < |trace| && token !in trace[i].store.sessions
    requires forall m :: i <= m < k && events[m].Opens? ==> events[m].token != token
    ensures token !in trace[k].store.sessions
  {
    if i < k {
      StaysClosed(trace, events, i, k - 1, token);
      StillClosed(trace[k - 1], events[k - 1], token);
    }
  }

  lemma StillClosed(s: Sys, e: Event, token: Text)
    requires token !in s.store.sessions && (e.Opens? ==> e.token != token)
    ensures token !in After(s, e).store.sessions
  {
  }

  /** Over every run: a user's sessions that were ended are no sessions any more, whatever becomes of the user. */
  lemma EndedSessionsStayEnded(trace: seq<Sys>, events: seq<Event>, i: nat, k: nat, id: Text, token: Text, now: int)
    requires Run(trace, events) && i < k < |trace| && events[i] == EndsSessions(id)
    requires token in trace[i].store.sessions && trace[i].store.sessions[token].userId == Some(id)
    requires forall m :: i < m < k && events[m].Opens? ==> events[m].token != token
    ensures Resolve(trace[k].store, token, now) == (NoSession, trace[k].store)
  {
    assert trace[i + 1] == After(trace[i], events[i]);
    StaysClosed(trace, events, i + 1, k, token);
  }
}
