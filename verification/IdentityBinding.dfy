/**
 How subjects are bound to users: login, adoption of waiting sessions, provisioning, invitation, disabling and
 deletion, in any order. A subject is a token minted once; `minted` and `answered` are history.
 */
module IdentityBinding {
  import opened Wrappers
  import opened JsonText
  import opened IdentityTables

  /** `bindings` is the record under each email's subject key; `members` are the users with a membership. */
  datatype Store = Store(users: map<Text, User>, members: set<Text>, bindings: map<Text, Text>, sessions: Sessions)

  datatype Login = Linked(userId: Text, subject: Text) | NotInvited | LoginDisabled | Unprovisioned(subject: Text)

  datatype Resolved = NoSession | Waiting(email: Text, subject: Option<Text>) | SignedIn(userId: Text)

  // --- Operations ---------------------------------------------------------------

  /** The user with this email. */
  ghost function UserOf(users: map<Text, User>, email: Text): (r: Option<Text>)
    ensures r.Some? ==> r.value in users && users[r.value].email == email
    ensures r.None? ==> forall id :: id in users ==> users[id].email != email
  {
    if exists id :: id in users && users[id].email == email
    then var id :| id in users && users[id].email == email; Some(id)
    else None
  }

  /** Resolving a verified email, with the record of its subject. `newSubject` is the subject it would mint. */
  ghost function LogIn(s: Store, email: Text, open: bool, newSubject: Text): (Login, Store) {
    match UserOf(s.users, email)
    case None =>
      if !open then (NotInvited, s)
      else
        var subject := if email in s.bindings then s.bindings[email] else newSubject;
        (Unprovisioned(subject), s.(bindings := s.bindings[email := subject]))
    case Some(id) =>
      var u := s.users[id];
      if u.status.Disabled? || u.disabledAt.Some? then (LoginDisabled, s)
      else
        var subject := if u.subject.Some? then u.subject.value else newSubject;
        (Linked(id, subject),
         s.(users := s.users[id := u.(subject := Some(subject), status := Active)],
           bindings := s.bindings[email := subject]))
  }

  predicate MayEnter(s: Store, id: Text) {
    id in s.users && s.users[id].disabledAt.None? && s.users[id].status.Active? && id in s.members
  }

  /** Resolving a session token; a waiting session adopts the user its email has got in the meantime. */
  ghost function Resolve(s: Store, token: Text, now: int): (Resolved, Store) {
    if token !in s.sessions || s.sessions[token].expiresAt < now then (NoSession, s)
    else
      var session := s.sessions[token];
      if session.userId.Some? then (if MayEnter(s, session.userId.value) then SignedIn(session.userId.value)
        else NoSession, s)
      else if session.email.None? then (NoSession, s)
      else
        match UserOf(s.users, session.email.value)
        case None => (Waiting(session.email.value, session.subject), s)
        case Some(id) =>
          var u := s.users[id];
          if u.disabledAt.Some? || !u.status.Active? then (Waiting(session.email.value, session.subject), s)
          else if u.subject.Some? && session.subject.Some? && u.subject != session.subject then
            (NoSession, s.(sessions := s.sessions - {token}))
          else
            var adopted := s.(
              users := if u.subject.None? && session.subject.Some? then s.users[id := u.(subject := session.subject)]
                else s.users,
              sessions := s.sessions[token := session.(userId := Some(id), email := None)]);
            (if MayEnter(adopted, id) then SignedIn(id) else NoSession, adopted)
  }

  /** A new row and membership, unless the email is taken. */
  ghost function AddUser(s: Store, id: Text, user: User): Store {
    if UserOf(s.users, user.email).Some? then s else s.(users := s.users[id := user], members := s.members + {id})
  }

  /** Provisioning: the email comes from the subject's binding, from the request, or from both if they agree. */
  function ProvisionEmail(ownerEmail: Option<Text>, subject: Option<Text>, found: Option<Text>): Option<Text> {
    if subject.None? then ownerEmail
    else if found.None? || (ownerEmail.Some? && ownerEmail != found) then None
    else found
  }

  ghost function Provision(s: Store, id: Text, ownerEmail: Option<Text>, subject: Option<Text>, found: Option<Text>,
        hasCredential: bool):
    Store
  {
    match ProvisionEmail(ownerEmail, subject, found)
    case None => s
    case Some(email) =>
      AddUser(s, id, User(email, if hasCredential then Active else Pending, None, if hasCredential then subject
        else None, false))
  }

  /** Disabling wins; re-enabling returns to active only where a subject was ever bound. */
  function SetDisabled(s: Store, id: Text, at: Option<int>): Store {
    if id !in s.users then s
    else
      var u := s.users[id];
      var status := if at.Some? then Disabled else if u.subject.Some? then Active else Pending;
      s.(users := s.users[id := u.(disabledAt := at, status := status)])
  }

  function DeleteUser(s: Store, id: Text): Store {
    if id !in s.users then s
    else s.(users := s.users - {id}, members := s.members - {id}, bindings := s.bindings - {s.users[id].email},
            sessions := OthersSessions(s.sessions, id))
  }

  /** What the removal of a workspace does to the users who had no other. */
  function PurgeUsers(s: Store, ids: set<Text>): Store {
    s.(users := s.users - ids, members := s.members - ids,
       sessions := map k | k in s.sessions && !(s.sessions[k].userId.Some? && s.sessions[k].userId.value in ids) ::
         s.sessions[k])
  }

  /** A new session, after which the expired ones are swept. */
  function OpenSession(s: Store, token: Text, session: Session, now: int): Store {
    var all := s.sessions[token := session];
    s.(sessions := map k | k in all && all[k].expiresAt >= now :: all[k])
  }

  /** No two users share an email. */
  ghost predicate DistinctEmails(users: map<Text, User>) {
    forall a, b :: a in users && b in users && users[a].email == users[b].email ==> a == b
  }

  class IdentityRows {
    var users: map<Text, User>
    var members: set<Text>
    var bindings: map<Text, Text>
    var sessions: Sessions

    constructor ()
      ensures Contents() == Store(map[], {}, map[], map[])
    {
      users, members, bindings, sessions := map[], {}, map[], map[];
    }

    function Contents(): Store
      reads this
    {
      Store(users, members, bindings, sessions)
    }

    method FindByEmail(email: Text) returns (found: Option<Text>)
      requires DistinctEmails(users)
      ensures found == UserOf(users, email)
    {
      var matching := set id | id in users && users[id].email == email;
      assert UserOf(users, email).Some? ==> UserOf(users, email).value in matching;
      if matching == {} { return None; }
      var id :| id in matching;
      return Some(id);
    }

    method ResolveAuthSuccess(email: Text, open: bool, newSubject: Text) returns (login: Login)
      requires DistinctEmails(users)
      modifies this
      ensures (login, Contents()) == LogIn(old(Contents()), email, open, newSubject)
    {
      login := BindAuthSuccess(email, open, newSubject);
      if login.Linked? || login.Unprovisioned? {
        assert login.Unprovisioned? ==> bindings == bindings[email := login.subject];
        bindings := bindings[email := login.subject];
      }
    }

    /** The body without the record that its caller writes for a linked user. */
    method BindAuthSuccess(email: Text, open: bool, newSubject: Text) returns (login: Login)
      requires DistinctEmails(users)
      modifies this
      ensures var (l, after) := LogIn(old(Contents()), email, open, newSubject);
        login == l && users == after.users && members == after.members && sessions == after.sessions &&
        bindings == if l.Linked? then old(bindings) else after.bindings
    {
      var found := FindByEmail(email);
      if found.None? {
        if !open { return NotInvited; }
        var subject := if email in bindings then bindings[email] else newSubject;
        bindings := bindings[email := subject];
        return Unprovisioned(subject);
      }
      var id := found.value;
      if users[id].status.Disabled? || users[id].disabledAt.Some? { return LoginDisabled; }
      if users[id].subject.Some? {
        if users[id].status.Pending? { users := users[id := users[id].(status := Active)]; }
        assert old(users)[id].status.Active? ==> users == old(users)[id := old(users)[id].(status := Active)];
        return Linked(id, users[id].subject.value);
      }
      users := users[id := users[id].(subject := Some(newSubject), status := Active)];
      return Linked(id, newSubject);
    }

    method ResolveSessionAny(token: Text, now: int) returns (r: Resolved)
      requires DistinctEmails(users)
      modifies this
      ensures (r, Contents()) == Resolve(old(Contents()), token, now)
    {
      if token !in sessions || sessions[token].expiresAt < now { return NoSession; }
      var session := sessions[token];
      if session.userId.None? {
        if session.email.None? { return NoSession; }
        var candidate := FindByEmail(session.email.value);
        if candidate.None? || users[candidate.value].disabledAt.Some? || !users[candidate.value].status.Active? {
          return Waiting(session.email.value, session.subject);
        }
        var id := candidate.value;
        if users[id].subject.Some? && session.subject.Some? && users[id].subject != session.subject {
          sessions := sessions - {token};
          return NoSession;
        }
        if users[id].subject.None? && session.subject.Some? {
          users := users[id := users[id].(subject := session.subject)];
        }
        sessions := sessions[token := session.(userId := Some(id), email := None)];
        r := ResolveUserSession(id);
      } else {
        r := ResolveUserSession(session.userId.value);
      }
    }

    method ResolveUserSession(id: Text) returns (r: Resolved)
      ensures r == if MayEnter(Contents(), id) then SignedIn(id) else NoSession
    {
      if id !in users || users[id].disabledAt.Some? || !users[id].status.Active? { return NoSession; }
      if id !in members { return NoSession; }
      return SignedIn(id);
    }
  }

  // --- Runs -----------------------------------------------------------------------

  datatype Event =
    | LogsIn(email: Text, open: bool, newSubject: Text)
    | Opens(token: Text, session: Session, now: int)
    | Resolves(token: Text, now: int)
    | Closes(token: Text)
    | EndsSessions(userId: Text)
    | Invites(userId: Text, email: Text)
    | Creates(userId: Text, email: Text)
    | Provisions(userId: Text, ownerEmail: Option<Text>, subject: Option<Text>, found: Option<Text>,
      hasCredential: bool)
    | Disables(userId: Text, at: Option<int>)
    | Deletes(userId: Text)
    | Purges(userIds: set<Text>)

  /** `minted` maps every subject to the email it was minted for, `answered` is what logins told their callers. */
  datatype Sys = Sys(store: Store, minted: map<Text, Text>, answered: set<(Text, Text)>, usedIds: set<Text>)

  /** The row the reverse lookup of a subject finds, if any. */
  ghost predicate Finds(bindings: map<Text, Text>, subject: Option<Text>, found: Option<Text>) {
    && (found.Some? ==> subject.Some? && found.value in bindings && bindings[found.value] == subject.value)
    && (found.None? && subject.Some? ==> forall email :: email in bindings ==> bindings[email] != subject.value)
  }

  /** Subjects and user ids are fresh, and a waiting session carries what a login answered for its email. */
  ghost predicate Allowed(s: Sys, e: Event) {
    match e
    case LogsIn(_, _, newSubject) => newSubject !in s.minted
    case Opens(token, session, _) =>
      && token !in s.store.sessions
      && (session.userId.None? && session.email.Some? && session.subject.Some? ==>
            (session.email.value, session.subject.value) in s.answered)
    case Invites(id, _) => id !in s.usedIds
    case Creates(id, _) => id !in s.usedIds
    case Provisions(id, _, subject, found, _) => id !in s.usedIds && Finds(s.store.bindings, subject, found)
    case _ => true
  }

  ghost function AfterLogin(s: Sys, email: Text, open: bool, newSubject: Text): Sys {
    var (login, store) := LogIn(s.store, email, open, newSubject);
    if login.Linked? || login.Unprovisioned? then
      Sys(store, if login.subject == newSubject then s.minted[newSubject := email]
        else s.minted, s.answered + {(email, login.subject)}, s.usedIds)
    else s.(store := store)
  }

  ghost function Enrolled(s: Sys, id: Text, store: Store): Sys { s.(store := store, usedIds := s.usedIds + {id}) }

  ghost function After(s: Sys, e: Event): Sys {
    match e
    case LogsIn(email, open, newSubject) => AfterLogin(s, email, open, newSubject)
    case Opens(token, session, now) => s.(store := OpenSession(s.store, token, session, now))
    case Resolves(token, now) => s.(store := Resolve(s.store, token, now).1)
    case Closes(token) => s.(store := s.store.(sessions := s.store.sessions - {token}))
    case EndsSessions(id) => s.(store := s.store.(sessions := OthersSessions(s.store.sessions, id)))
    case Invites(id, email) => Enrolled(s, id, AddUser(s.store, id, User(email, Pending, None, None, false)))
    case Creates(id, email) => Enrolled(s, id, AddUser(s.store, id, User(email, Active, None, None, false)))
    case Provisions(id, ownerEmail, subject, found, hasCredential) =>
      Enrolled(s, id, Provision(s.store, id, ownerEmail, subject, found, hasCredential))
    case Disables(id, at) => s.(store := SetDisabled(s.store, id, at))
    case Deletes(id) => s.(store := DeleteUser(s.store, id))
    case Purges(ids) => s.(store := PurgeUsers(s.store, ids))
  }

  ghost predicate Run(trace: seq<Sys>, events: seq<Event>) {
    && |trace| == |events| + 1 && trace[0] == Sys(Store(map[], {}, map[], map[]), map[], {}, {})
    && forall k {:trigger events[k]} :: 0 <= k < |events| ==>
          Allowed(trace[k], events[k]) && trace[k + 1] == After(trace[k], events[k])
  }

  ghost predicate MintedFor(s: Sys, subject: Text, email: Text) { subject in s.minted && s.minted[subject] == email }

  ghost predicate UsersInv(s: Sys) {
    && DistinctEmails(s.store.users)
    && s.store.users.Keys <= s.usedIds
    && forall id :: id in s.store.users && s.store.users[id].subject.Some? ==>
         MintedFor(s, s.store.users[id].subject.value, s.store.users[id].email) && !s.store.users[id].status.Pending?
  }

  ghost predicate RecordsInv(s: Sys) {
    && (forall email :: email in s.store.bindings ==> MintedFor(s, s.store.bindings[email], email))
    && (forall a :: a in s.answered ==> MintedFor(s, a.1, a.0))
  }

  predicate Awaits(session: Session, email: Text, subject: Text) {
    session.userId.None? && session.email == Some(email) && session.subject == Some(subject)
  }

  /** A waiting session's subject was minted for its email. */
  ghost predicate Vouched(s: Sys, session: Session) {
    session.userId.None? && session.email.Some? && session.subject.Some? ==>
      MintedFor(s, session.subject.value, session.email.value)
  }

  ghost predicate SessionsInv(s: Sys) {
    forall token :: token in s.store.sessions ==> Vouched(s, s.store.sessions[token])
  }

  ghost predicate Inv(s: Sys) { UsersInv(s) && RecordsInv(s) && SessionsInv(s) }

  lemma LoginKeeps(s: Sys, email: Text, open: bool, newSubject: Text)
    requires Inv(s) && newSubject !in s.minted
    ensures Inv(AfterLogin(s, email, open, newSubject))
  {
    LoginKeepsUsers(s, email, open, newSubject);
    LoginKeepsRecords(s, email, open, newSubject);
    var t := AfterLogin(s, email, open, newSubject);
    forall token | token in t.store.sessions ensures Vouched(t, t.store.sessions[token]) {
      assert Vouched(s, s.store.sessions[token]);
    }
  }

  lemma LoginKeepsUsers(s: Sys, email: Text, open: bool, newSubject: Text)
    requires UsersInv(s) && newSubject !in s.minted
    ensures UsersInv(AfterLogin(s, email, open, newSubject))
  {
  }

  lemma LoginKeepsRecords(s: Sys, email: Text, open: bool, newSubject: Text)
    requires UsersInv(s) && RecordsInv(s) && newSubject !in s.minted
    ensures RecordsInv(AfterLogin(s, email, open, newSubject))
  {
  }

  lemma ResolveKeeps(s: Sys, token: Text, now: int)
    requires Inv(s)
    ensures Inv(s.(store := Resolve(s.store, token, now).1))
  {
    if token in s.store.sessions { assert Vouched(s, s.store.sessions[token]); }
  }

  lemma EnrolKeeps(s: Sys, e: Event)
    requires Inv(s) && Allowed(s, e) && (e.Invites? || e.Creates? || e.Provisions?)
    ensures Inv(After(s, e))
  {
  }

  lemma OthersKeep(s: Sys, e: Event)
    requires Inv(s) && Allowed(s, e) &&
      (e.Opens? || e.Closes? || e.EndsSessions? || e.Disables? || e.Deletes? || e.Purges?)
    ensures Inv(After(s, e))
  {
  }

  lemma StepKeeps(s: Sys, e: Event)
    requires Inv(s) && Allowed(s, e)
    ensures Inv(After(s, e))
  {
    match e
    case LogsIn(email, open, newSubject) => LoginKeeps(s, email, open, newSubject);
    case Resolves(token, now) => ResolveKeeps(s, token, now);
    case Invites(_, _) => EnrolKeeps(s, e);
    case Creates(_, _) => EnrolKeeps(s, e);
    case Provisions(_, _, _, _, _) => EnrolKeeps(s, e);
    case _ => OthersKeep(s, e);
  }

  lemma {:induction false} Reachable(trace: seq<Sys>, events: seq<Event>, k: nat)
    requires Run(trace, events) && k < |trace|
    ensures Inv(trace[k])
  {
    if k > 0 {
      Reachable(trace, events, k - 1);
      StepKeeps(trace[k - 1], events[k - 1]);
    }
  }

  /** A row that stays keeps its email and its subject, a lost row never returns, a minting is for good. */
  ghost predicate Grows(s: Sys, t: Sys) {
    && s.usedIds <= t.usedIds
    && (forall id :: id in t.store.users && id in s.usedIds ==> id in s.store.users)
    && (forall id :: id in s.store.users && id in t.store.users ==>
          t.store.users[id].email == s.store.users[id].email &&
          (s.store.users[id].subject.Some? ==> t.store.users[id].subject == s.store.users[id].subject))
    && (forall subject :: subject in s.minted ==> subject in t.minted && t.minted[subject] == s.minted[subject])
  }

  lemma LoginGrows(s: Sys, email: Text, open: bool, newSubject: Text)
    requires Inv(s) && newSubject !in s.minted
    ensures Grows(s, AfterLogin(s, email, open, newSubject))
  {
  }

  /** Resolving adds and removes no user, and at most binds one that has no subject. */
  lemma ResolveTouches(s: Store, token: Text, now: int)
    ensures var after := Resolve(s, token, now).1;
      && after.users.Keys == s.users.Keys
      && forall id :: id in s.users ==>
           after.users[id] == s.users[id] ||
             (s.users[id].subject.None? && after.users[id] == s.users[id].(subject := after.users[id].subject))
  {
  }

  lemma ResolveGrows(s: Sys, token: Text, now: int)
    requires Inv(s)
    ensures Grows(s, s.(store := Resolve(s.store, token, now).1))
  {
    ResolveTouches(s.store, token, now);
  }

  lemma StepGrows(s: Sys, e: Event)
    requires Inv(s) && Allowed(s, e)
    ensures Grows(s, After(s, e))
  {
    match e
    case LogsIn(email, open, newSubject) => LoginGrows(s, email, open, newSubject);
    case Resolves(token, now) => ResolveGrows(s, token, now);
    case _ =>
  }

  lemma GrowsTransitive(a: Sys, b: Sys, c: Sys)
    requires Grows(a, b) && Grows(b, c) && Inv(a)
    ensures Grows(a, c)
  {
  }

  lemma {:induction false} RunGrows(trace: seq<Sys>, events: seq<Event>, i: nat, j: nat)
    requires Run(trace, events) && i <= j < |trace|
    ensures Grows(trace[i], trace[j])
  {
    Reachable(trace, events, i);
    if i < j {
      RunGrows(trace, events, i, j - 1);
      Reachable(trace, events, j - 1);
      StepGrows(trace[j - 1], events[j - 1]);
      GrowsTransitive(trace[i], trace[j - 1], trace[j]);
    }
  }

  // --- Main results -------------------------------------------------------------------

  /** A user's subject, once set, stays what it is for as long as the user exists. */
  lemma SubjectNeverChanges(trace: seq<Sys>, events: seq<Event>, i: nat, j: nat, id: Text)
    requires Run(trace, events) && i <= j < |trace|
    requires id in trace[i].store.users && trace[i].store.users[id].subject.Some? && id in trace[j].store.users
    ensures trace[j].store.users[id].subject == trace[i].store.users[id].subject
    ensures trace[j].store.users[id].email == trace[i].store.users[id].email
  {
    RunGrows(trace, events, i, j);
  }

  /** Anywhere a subject shows up: on a user, in a record, on a waiting session, or in a login's answer. */
  ghost predicate Shows(s: Sys, subject: Text, email: Text) {
    || (exists id :: id in s.store.users && s.store.users[id].subject == Some(subject) &&
          s.store.users[id].email == email)
    || (email in s.store.bindings && s.store.bindings[email] == subject)
    || (exists token :: token in s.store.sessions && Awaits(s.store.sessions[token], email, subject))
    || (email, subject) in s.answered
  }

  /** Over the whole run a subject belongs to one email, wherever and whenever it shows up. */
  lemma SubjectBelongsToOneEmail(trace: seq<Sys>, events: seq<Event>, i: nat, j: nat, subject: Text, a: Text, b: Text)
    requires Run(trace, events) && i <= j < |trace| && Shows(trace[i], subject, a) && Shows(trace[j], subject, b)
    ensures a == b
  {
    Reachable(trace, events, i);
    Reachable(trace, events, j);
    RunGrows(trace, events, i, j);
    assert MintedFor(trace[i], subject, a) && MintedFor(trace[j], subject, b);
  }

  /** No two users share a subject, so the unique index never refuses a binding; a bound user is never pending. */
  lemma BoundUsersAreDistinct(trace: seq<Sys>, events: seq<Event>, k: nat)
    requires Run(trace, events) && k < |trace|
    ensures forall a, b ::
              (a in trace[k].store.users && b in trace[k].store.users && trace[k].store.users[a].subject.Some? &&
               trace[k].store.users[a].subject == trace[k].store.users[b].subject) ==> a == b
    ensures forall id :: id in trace[k].store.users && trace[k].store.users[id].subject.Some? ==>
              !trace[k].store.users[id].status.Pending?
  {
    Reachable(trace, events, k);
  }

  /** A session that waits under the subject `first`, still good, of the email of user `id`. */
  ghost predicate WaitsFor(s: Sys, token: Text, now: int, email: Text, first: Text, id: Text) {
    && token in s.store.sessions && s.store.sessions[token].expiresAt >= now &&
          Awaits(s.store.sessions[token], email, first)
    && id in s.store.users && s.store.users[id].email == email
  }

  predicate Enabled(u: User) { !u.status.Disabled? && u.disabledAt.None? }

  /**
   A waiting session comes back and its email has got an active user: it survives exactly when the user has no
   subject yet, which it then binds, or has that of the session; and if so it is the user's session from then on.
   */
  lemma WaitingSurvivesExactlyWhen(s: Sys, token: Text, now: int, email: Text, first: Text, id: Text)
    requires Inv(s) && WaitsFor(s, token, now, email, first, id)
    requires s.store.users[id].status.Active? && s.store.users[id].disabledAt.None?
    ensures var (r, after) := Resolve(s.store, token, now);
      && (token in after.sessions <==> s.store.users[id].subject.None? || s.store.users[id].subject == Some(first))
      && (token !in after.sessions ==> r == NoSession && after.users == s.store.users)
      && (token in after.sessions ==>
            after.sessions[token].userId == Some(id) && id in after.users && after.users[id].subject == Some(first))
  {
    assert UserOf(s.store.users, email) == Some(id);
  }

  /**
   What a login answers, exactly, to someone for whom `first` was minted earlier: `first` again if their enabled
   user is bound to it, or, while there is no user and registration is open, if it is the subject on record.
   */
  lemma LoginAnswersFirstExactlyWhen(s: Sys, email: Text, open: bool, newSubject: Text, first: Text)
    requires Inv(s) && first in s.minted && newSubject !in s.minted
    ensures var login := LogIn(s.store, email, open, newSubject).0;
      && (forall id :: login == Linked(id, first) <==>
            id in s.store.users && s.store.users[id].email == email && Enabled(s.store.users[id]) &&
              s.store.users[id].subject == Some(first))
      && (login == Unprovisioned(first) <==>
            open && (forall id :: id in s.store.users ==> s.store.users[id].email != email) &&
            email in s.store.bindings && s.store.bindings[email] == first)
  {
    forall id | id in s.store.users &&
      s.store.users[id].email == email ensures UserOf(s.store.users, email) == Some(id) {
    }
  }

  /**
   Someone who logged in before their user existed waits under a first subject. When they log in again and the
   waiting session then comes back, it survives exactly if their user was bound to that subject: a user created
   without it gets a second subject at the login, and the session is dropped.
   */
  lemma SecondSubjectEndsWaiting(
      s: Sys, email: Text, open: bool, newSubject: Text, token: Text, now: int, first: Text, id: Text)
    requires Inv(s) && newSubject !in s.minted && WaitsFor(s, token, now, email, first, id) &&
      Enabled(s.store.users[id])
    ensures var t := AfterLogin(s, email, open, newSubject);
      token in Resolve(t.store, token, now).1.sessions <==> s.store.users[id].subject == Some(first)
    ensures var login := LogIn(s.store, email, open, newSubject).0;
      login == Linked(id, if s.store.users[id].subject.Some? then s.store.users[id].subject.value else newSubject)
  {
    LoginKeeps(s, email, open, newSubject);
    var t := AfterLogin(s, email, open, newSubject);
    assert Vouched(s, s.store.sessions[token]);
    assert UserOf(s.store.users, email) == Some(id);
    assert WaitsFor(t, token, now, email, first, id) && t.store.users[id].status.Active?;
    WaitingSurvivesExactlyWhen(t, token, now, email, first, id);
  }
}
