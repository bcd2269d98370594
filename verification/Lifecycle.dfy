/**
 Workspace lifecycle: provisioning, access state, ownership and deletion. Every request runs in one
 transaction, so a refused one leaves the store as it was.
 */
module Lifecycle {
  import opened Wrappers
  import opened JsonText
  import opened Policy

  datatype Mode = Open | Locked

  /** The status column; rows from before it have none, and values the code does not know count as disabled. */
  datatype Status = NoStatus | Pending | Active | Other

  datatype User = User(email: Text, status: Status, disabledAt: Option<int>, hasPassword: bool)

  datatype Access = Access(mode: Mode, expiresAt: Option<int>, version: nat)

  datatype Entry = Provisioned | AccessSet | OwnerTransferred

  /** `members` are the membership rows by (workspace, user); `audit` is each workspace's own trail. */
  datatype Db = Db(workspaces: set<Text>, users: map<Text, User>, members: map<(Text, Text), Role>,
                   access: map<Text, Access>, audit: map<Text, seq<Entry>>)
  {
    function Version(ws: Text): nat { if ws in access then access[ws].version else 0 }

    function Trail(ws: Text): seq<Entry> { if ws in audit then audit[ws] else [] }

    function Audited(ws: Text, entry: Entry): Db { this.(audit := audit[ws := Trail(ws) + [entry]]) }
  }

  datatype Error =
    | UnknownWorkspace
    | VersionConflict(current: nat)
    | NotEligible
    | IdentityUnavailable
    | RateLimited
    | UserNotFound
    | InvalidState
    | Conflict

  datatype Result<T> = Done(value: T) | Refused(error: Error)

  // --- Queries ----------------------------------------------------------------

  datatype AuthState = PendingState | ActiveState | DisabledState

  function UserAuthState(u: User): AuthState {
    if u.disabledAt.Some? then DisabledState
    else if !u.status.NoStatus? then
      if u.status.Active? then ActiveState else if u.status.Pending? then PendingState else DisabledState
    else if u.hasPassword then ActiveState else PendingState
  }

  datatype Who = ById(id: Text) | ByEmail(email: Text)

  predicate Meets(d: Db, id: Text, who: Who) {
    id in d.users && if who.ById? then id == who.id else d.users[id].email == who.email
  }

  /** A row the member query may return: some matching member, or none when there is none. */
  ghost predicate FindsMember(d: Db, ws: Text, who: Who, found: Option<Text>) {
    match found
    case Some(id) => (ws, id) in d.members && Meets(d, id, who)
    case None => forall id :: Meets(d, id, who) ==> (ws, id) !in d.members
  }

  predicate IsOwner(d: Db, ws: Text, id: Text) { (ws, id) in d.members && d.members[(ws, id)].Owner? }

  /** A row the owner query may return; of several owners it may be any. */
  ghost predicate FindsOwner(d: Db, ws: Text, found: Option<Text>) {
    match found
    case Some(id) => IsOwner(d, ws, id) && id in d.users
    case None => forall id :: id in d.users ==> !IsOwner(d, ws, id)
  }

  // --- Requests ---------------------------------------------------------------

  /** `windowFull` says that no setup code may be issued for the email right now. */
  datatype NewWorkspace = NewWorkspace(
    id: Text, ownerId: Text, email: Text, hasCredential: bool, mode: Option<Mode>, expiresAt: Option<int>,
      windowFull: bool)

  predicate EmailTaken(d: Db, email: Text) { exists id :: id in d.users && d.users[id].email == email }

  function WithOwner(d: Db, n: NewWorkspace): Db {
    d.(workspaces := d.workspaces + {n.id},
       users := d.users[n.ownerId := User(n.email, if n.hasCredential then Active else Pending, None, false)],
       members := d.members[(n.id, n.ownerId) := Owner])
  }

  function Provision(d: Db, n: NewWorkspace): (Result<nat>, Db) {
    if EmailTaken(d, n.email) then (Refused(IdentityUnavailable), d)
    else if !n.hasCredential && n.windowFull then (Refused(RateLimited), d)
    else
      var mode := if n.mode.Some? then n.mode.value else Open;
      (Done(1), WithOwner(d, n).(access := d.access[n.id := Access(mode, n.expiresAt, 1)]).Audited(n.id, Provisioned))
  }

  predicate Guarded(d: Db, ws: Text, expected: Option<nat>) { expected.Some? ==> expected.value == d.Version(ws) }

  function WriteAccess(d: Db, ws: Text, mode: Mode, expiresAt: Option<int>): Db {
    d.(access := d.access[ws := Access(mode, expiresAt, d.Version(ws) + 1)])
  }

  function SetAccess(d: Db, ws: Text, mode: Mode, expiresAt: Option<int>, expected: Option<nat>): (Result<Access>, Db) {
    if ws !in d.workspaces then (Refused(UnknownWorkspace), d)
    else if !Guarded(d, ws, expected) then (Refused(VersionConflict(d.Version(ws))), d)
    else if ws in d.access && d.access[ws].mode == mode && d.access[ws].expiresAt == expiresAt
      then (Done(d.access[ws]), d)
    else
      (Done(Access(mode, expiresAt, d.Version(ws) + 1)), WriteAccess(d, ws, mode, expiresAt).Audited(ws, AccessSet))
  }

  /** Both UPDATEs of the swap: every other owner becomes admin, the target owner. */
  function SwapOwner(d: Db, ws: Text, target: Text): Db {
    d.(members := map k | k in d.members ::
         if k.0 != ws then d.members[k]
         else if k.1 == target then Owner
         else if d.members[k].Owner? then Admin else d.members[k])
  }

  datatype Transferred = Transferred(owner: Text, previous: Option<Text>, version: nat, changed: bool)

  /** `target` and `owner` are the rows the two queries found. */
  function Transfer(d: Db, ws: Text, target: Option<Text>, owner: Option<Text>,
        expected: Option<nat>): (Result<Transferred>, Db) {
    if ws !in d.workspaces then (Refused(UnknownWorkspace), d)
    else if !Guarded(d, ws, expected) then (Refused(VersionConflict(d.Version(ws))), d)
    else if target.None? || target.value !in d.users || !UserAuthState(d.users[target.value]).ActiveState?
      then (Refused(NotEligible), d)
    else if owner == target then (Done(Transferred(target.value, None, d.Version(ws), false)), d)
    else
      var swapped := SwapOwner(d, ws, target.value);
      var bumped := if ws in d.access then WriteAccess(swapped, ws, d.access[ws].mode, d.access[ws].expiresAt)
        else swapped;
      (Done(Transferred(target.value, owner, if ws in d.access then d.Version(ws) + 1 else d.Version(ws), true)),
       bumped.Audited(ws, OwnerTransferred))
  }

  /** Ownership handed over inside the application. */
  function TransferOwnership(d: Db, ws: Text, from: Text, to: Text): (Result<()>, Db) {
    if !IsOwner(d, ws, from) then (Refused(InvalidState), d)
    else if (ws, to) !in d.members then (Refused(UserNotFound), d)
    else if to !in d.users || !d.users[to].status.Active? || d.users[to].disabledAt.Some?
      then (Refused(InvalidState), d)
    else (Done(()), d.(members := d.members[(ws, from) := Admin][(ws, to) := Owner]))
  }

  function CreatePending(d: Db, ws: Text, id: Text, email: Text, role: Role): (Result<()>, Db) {
    if role.Owner? then (Refused(InvalidState), d)
    else if EmailTaken(d, email) then (Refused(Conflict), d)
    else (Done(()), d.(users := d.users[id := User(email, Pending, None, false)],
      members := d.members[(ws, id) := role]))
  }

  /** What a first login, a disabling, an enabling or a new password leave of a user's row; the email stays. */
  function ChangeUser(d: Db, id: Text, status: Status, disabledAt: Option<int>, hasPassword: bool): Db {
    if id in d.users then d.(users := d.users[id := User(d.users[id].email, status, disabledAt, hasPassword)]) else d
  }

  /** A user has one membership, so the row the code looks at is the one in this workspace. */
  function DeletePermanently(d: Db, ws: Text, id: Text): (Result<()>, Db) {
    if (ws, id) !in d.members || id !in d.users then (Refused(UserNotFound), d)
    else if d.members[(ws, id)].Owner? then (Refused(InvalidState), d)
    else (Done(()), d.(users := d.users - {id}, members := map k | k in d.members && k.1 != id :: d.members[k]))
  }

  predicate MemberElsewhere(d: Db, ws: Text, id: Text) { exists k :: k in d.members && k.0 != ws && k.1 == id }

  /** Members of the workspace who belong to no other go with it. */
  function DeleteWorkspace(d: Db, ws: Text): Db {
    if ws !in d.workspaces then d
    else
      Db(d.workspaces - {ws},
         map id | id in d.users && !((ws, id) in d.members && !MemberElsewhere(d, ws, id)) :: d.users[id],
         map k | k in d.members && k.0 != ws :: d.members[k],
         d.access - {ws}, d.audit - {ws})
  }

  // --- The store as it is updated ---------------------------------------------------

  class HostingRows {
    var workspaces: set<Text>
    var users: map<Text, User>
    var members: map<(Text, Text), Role>
    var access: map<Text, Access>
    var audit: map<Text, seq<Entry>>

    constructor ()
      ensures Contents() == Db({}, map[], map[], map[], map[])
    {
      workspaces, users, members, access, audit := {}, map[], map[], map[], map[];
    }

    function Contents(): Db
      reads this
    {
      Db(workspaces, users, members, access, audit)
    }

    method WorkspaceAuditEvent(ws: Text, entry: Entry)
      modifies this
      ensures Contents() == old(Contents()).Audited(ws, entry)
    {
      audit := audit[ws := (if ws in audit then audit[ws] else []) + [entry]];
    }

    method InsertAccess(ws: Text, mode: Mode, expiresAt: Option<int>)
      requires ws !in access
      modifies this
      ensures Contents() == WriteAccess(old(Contents()), ws, mode, expiresAt)
    {
      access := access[ws := Access(mode, expiresAt, 1)];
    }

    method UpdateAccess(ws: Text, mode: Mode, expiresAt: Option<int>)
      modifies this
      ensures Contents() == if ws in old(access) then WriteAccess(old(Contents()), ws, mode, expiresAt)
        else old(Contents())
    {
      if ws in access { access := access[ws := Access(mode, expiresAt, access[ws].version + 1)]; }
    }

    method DemoteOthers(ws: Text, target: Text)
      modifies this
      ensures Contents() == old(Contents()).(members := members)
      ensures members.Keys == old(members).Keys
      ensures forall k :: k in members ==>
                members[k] == if k.0 == ws && k.1 != target && old(members)[k].Owner? then Admin else old(members)[k]
    {
      members := map k | k in members :: if k.0 == ws && k.1 != target && members[k].Owner? then Admin else members[k];
    }

    method SwapOwners(ws: Text, target: Text)
      modifies this
      ensures Contents() == SwapOwner(old(Contents()), ws, target)
    {
      DemoteOthers(ws, target);
      if (ws, target) in members { members := members[(ws, target) := Owner]; }
      assert members == SwapOwner(old(Contents()), ws, target).members;
    }

    method FindMember(ws: Text, who: Who) returns (found: Option<Text>)
      ensures FindsMember(Contents(), ws, who, found)
    {
      var matching := set id | id in users && (ws, id) in members &&
        (if who.ById? then id == who.id else users[id].email == who.email);
      if matching == {} {
        found := None;
        forall id | Meets(Contents(), id, who) ensures (ws, id) !in members {
          assert id !in matching;
        }
      } else {
        var id :| id in matching;
        found := Some(id);
      }
    }

    method OwnerOf(ws: Text) returns (found: Option<Text>)
      ensures FindsOwner(Contents(), ws, found)
    {
      var owners := set id | id in users && (ws, id) in members && members[(ws, id)].Owner?;
      if owners == {} {
        found := None;
        forall id | id in users ensures !IsOwner(Contents(), ws, id) { assert id !in owners; }
      } else {
        var id :| id in owners;
        found := Some(id);
      }
    }

    /** The row and its membership, unless a user has the email already. */
    method CreateOwner(n: NewWorkspace) returns (created: bool)
      modifies this
      ensures created == !EmailTaken(old(Contents()), n.email)
      ensures !created ==> Contents() == old(Contents())
      ensures created ==> Contents() == WithOwner(old(Contents()), n).(workspaces := old(workspaces))
    {
      if EmailTaken(Contents(), n.email) { return false; }
      users := users[n.ownerId := User(n.email, if n.hasCredential then Active else Pending, None, false)];
      members := members[(n.id, n.ownerId) := Owner];
      return true;
    }

    /** Throws after it has written; the transaction of the request undoes that. */
    method ProvisionWorkspace(n: NewWorkspace) returns (r: Result<nat>)
      requires n.id !in access
      modifies this
      ensures r == Provision(old(Contents()), n).0
      ensures r.Done? ==> Contents() == Provision(old(Contents()), n).1
    {
      workspaces := workspaces + {n.id};
      var created := CreateOwner(n);
      if !created { return Refused(IdentityUnavailable); }
      InsertAccess(n.id, if n.mode.Some? then n.mode.value else Open, n.expiresAt);
      if !n.hasCredential && n.windowFull { return Refused(RateLimited); }
      WorkspaceAuditEvent(n.id, Provisioned);
      return Done(1);
    }

    method ProvisionInTransaction(n: NewWorkspace) returns (r: Result<nat>)
      requires n.id !in access
      modifies this
      ensures (r, Contents()) == Provision(old(Contents()), n)
    {
      var entry := Contents();
      r := ProvisionWorkspace(n);
      if r.Refused? {
        workspaces, users, members, access, audit := entry.workspaces, entry.users, entry.members, entry.access,
          entry.audit;
      }
    }

    method SetWorkspaceAccess(ws: Text, mode: Mode, expiresAt: Option<int>,
          expected: Option<nat>) returns (r: Result<Access>)
      modifies this
      ensures (r, Contents()) == SetAccess(old(Contents()), ws, mode, expiresAt, expected)
    {
      if ws !in workspaces { return Refused(UnknownWorkspace); }
      var currentVersion := if ws in access then access[ws].version else 0;
      if expected.Some? && expected.value != currentVersion { return Refused(VersionConflict(currentVersion)); }
      if ws in access && access[ws].mode == mode && access[ws].expiresAt == expiresAt { return Done(access[ws]); }
      if ws !in access { InsertAccess(ws, mode, expiresAt); } else { UpdateAccess(ws, mode, expiresAt); }
      WorkspaceAuditEvent(ws, AccessSet);
      return Done(access[ws]);
    }

    method TransferWorkspaceOwner(ws: Text, who: Who, expected: Option<nat>) returns (r: Result<Transferred>)
      modifies this
      ensures exists target, owner ::
                && FindsMember(old(Contents()), ws, who, target) && FindsOwner(old(Contents()), ws, owner)
                && (r, Contents()) == Transfer(old(Contents()), ws, target, owner, expected)
    {
      ghost var entry := Contents();
      var target := FindMember(ws, who);
      var owner := OwnerOf(ws);
      assert FindsMember(entry, ws, who, target) && FindsOwner(entry, ws, owner);
      r := Refused(UnknownWorkspace);
      if ws in workspaces {
        var currentVersion := if ws in access then access[ws].version else 0;
        if expected.Some? && expected.value != currentVersion {
          r := Refused(VersionConflict(currentVersion));
        } else if target.None? || !UserAuthState(users[target.value]).ActiveState? {
          r := Refused(NotEligible);
        } else if owner == target {
          r := Done(Transferred(target.value, None, currentVersion, false));
        } else {
          SwapOwners(ws, target.value);
          var version := currentVersion;
          if ws in access {
            UpdateAccess(ws, access[ws].mode, access[ws].expiresAt);
            version := currentVersion + 1;
          }
          WorkspaceAuditEvent(ws, OwnerTransferred);
          r := Done(Transferred(target.value, owner, version, true));
        }
      }
      assert (r, Contents()) == Transfer(entry, ws, target, owner, expected);
    }

    method HandOver(ws: Text, from: Text, to: Text) returns (r: Result<()>)
      modifies this
      ensures (r, Contents()) == TransferOwnership(old(Contents()), ws, from, to)
    {
      if (ws, from) !in members || !members[(ws, from)].Owner? { return Refused(InvalidState); }
      if (ws, to) !in members { return Refused(UserNotFound); }
      if to !in users || !users[to].status.Active? || users[to].disabledAt.Some? { return Refused(InvalidState); }
      members := members[(ws, from) := Admin];
      members := members[(ws, to) := Owner];
      return Done(());
    }
  }

  // --- Runs -------------------------------------------------------------------------

  datatype Event =
    | Provisions(request: NewWorkspace)
    | SetsAccess(ws: Text, mode: Mode, expiresAt: Option<int>, expected: Option<nat>)
    | Transfers(ws: Text, target: Option<Text>, owner: Option<Text>, expected: Option<nat>)
    | HandsOver(ws: Text, from: Text, to: Text)
    | Invites(ws: Text, id: Text, email: Text, role: Role)
    | ChangesUser(id: Text, status: Status, disabledAt: Option<int>, hasPassword: bool)
    | DeletesUser(ws: Text, id: Text)
    | DeletesWorkspace(ws: Text)

  /** `seen` is history: every workspace id used so far. */
  datatype Sys = Sys(db: Db, seen: set<Text>)

  /** New ids are fresh, and queries return rows that are there. */
  ghost predicate Allowed(s: Sys, e: Event) {
    match e
    case Provisions(n) => n.id !in s.seen && n.ownerId !in s.db.users
    case Transfers(ws, target, owner, _) =>
      FindsOwner(s.db, ws, owner) && (target.Some? ==> (ws, target.value) in s.db.members)
    case Invites(ws, id, _, _) => ws in s.db.workspaces && id !in s.db.users
    case _ => true
  }

  function Next(d: Db, e: Event): Db {
    match e
    case Provisions(n) => Provision(d, n).1
    case SetsAccess(ws, mode, expiresAt, expected) => SetAccess(d, ws, mode, expiresAt, expected).1
    case Transfers(ws, target, owner, expected) => Transfer(d, ws, target, owner, expected).1
    case HandsOver(ws, from, to) => TransferOwnership(d, ws, from, to).1
    case Invites(ws, id, email, role) => CreatePending(d, ws, id, email, role).1
    case ChangesUser(id, status, disabledAt, hasPassword) => ChangeUser(d, id, status, disabledAt, hasPassword)
    case DeletesUser(ws, id) => DeletePermanently(d, ws, id).1
    case DeletesWorkspace(ws) => DeleteWorkspace(d, ws)
  }

  function After(s: Sys, e: Event): Sys {
    Sys(Next(s.db, e), if e.Provisions? then s.seen + {e.request.id} else s.seen)
  }

  ghost predicate Run(trace: seq<Sys>, events: seq<Event>) {
    && |trace| == |events| + 1 && Inv(trace[0])
    && forall k {:trigger events[k]} :: 0 <= k < |events| ==>
          Allowed(trace[k], events[k]) && trace[k + 1] == After(trace[k], events[k])
  }

  ghost predicate SoleOwner(d: Db, ws: Text, id: Text) {
    IsOwner(d, ws, id) && forall other :: IsOwner(d, ws, other) ==> other == id
  }

  ghost predicate HasSoleOwner(d: Db, ws: Text) { exists id :: SoleOwner(d, ws, id) }

  /** Memberships point at rows that exist, and a user has one. */
  ghost predicate RowsInv(d: Db) {
    && (forall k :: k in d.members ==> k.0 in d.workspaces && k.1 in d.users)
    && (forall k, l :: k in d.members && l in d.members && k.1 == l.1 ==> k == l)
  }

  ghost predicate Inv(s: Sys) {
    && RowsInv(s.db)
    && (forall ws :: ws in s.db.workspaces ==> HasSoleOwner(s.db, ws) && ws in s.seen)
    && ControlInv(s.db)
  }

  lemma MovesKeepKeys(d: Db, e: Event)
    requires e.Transfers? || e.SetsAccess? || e.ChangesUser? || e.HandsOver?
    ensures var t := Next(d, e);
      t.members.Keys == d.members.Keys && t.users.Keys == d.users.Keys && t.workspaces == d.workspaces
  {
  }

  lemma SameKeys(d: Db, after: Db)
    requires RowsInv(d)
    requires after.members.Keys == d.members.Keys && after.users.Keys == d.users.Keys &&
      after.workspaces == d.workspaces
    ensures RowsInv(after)
  {
    forall k | k in after.members ensures k.0 in after.workspaces && k.1 in after.users { assert k in d.members; }
    forall k, l | k in after.members && l in after.members && k.1 == l.1 ensures k == l {
      assert k in d.members && l in d.members;
    }
  }

  lemma DeleteRows(d: Db, ws: Text)
    requires RowsInv(d)
    ensures RowsInv(DeleteWorkspace(d, ws))
  {
    var after := DeleteWorkspace(d, ws);
    forall k | k in after.members ensures k.0 in after.workspaces && k.1 in after.users {
      assert (ws, k.1) in d.members ==> ws == k.0;
    }
  }

  /** A fresh user with one membership. */
  lemma NewRow(d: Db, after: Db, ws: Text, id: Text)
    requires RowsInv(d) && id !in d.users
    requires after == d ||
      (after.members.Keys == d.members.Keys + {(ws, id)} && after.users.Keys == d.users.Keys + {id} &&
       d.workspaces <= after.workspaces && ws in after.workspaces)
    ensures RowsInv(after)
  {
    forall k | k in after.members ensures k.0 in after.workspaces && k.1 in after.users {
      assert k in d.members || k == (ws, id);
    }
    forall k, l | k in after.members && l in after.members && k.1 == l.1 ensures k == l {
      assert k in d.members || k == (ws, id);
      assert l in d.members || l == (ws, id);
    }
  }

  lemma DeleteUserRows(d: Db, ws: Text, id: Text)
    requires RowsInv(d)
    ensures RowsInv(DeletePermanently(d, ws, id).1)
  {
    var after := DeletePermanently(d, ws, id).1;
    forall k | k in after.members ensures k.0 in after.workspaces && k.1 in after.users {
      assert k in d.members && ((ws, id) in d.members && k.1 == id ==> k == (ws, id));
    }
  }

  lemma RowsKept(s: Sys, e: Event)
    requires Inv(s) && Allowed(s, e)
    ensures RowsInv(Next(s.db, e))
  {
    match e
    case Provisions(n) => NewRow(s.db, Provision(s.db, n).1, n.id, n.ownerId);
    case Invites(ws, id, email, role) => NewRow(s.db, CreatePending(s.db, ws, id, email, role).1, ws, id);
    case DeletesWorkspace(ws) => DeleteRows(s.db, ws);
    case DeletesUser(ws, id) => DeleteUserRows(s.db, ws, id);
    case _ =>
      MovesKeepKeys(s.db, e);
      SameKeys(s.db, Next(s.db, e));
  }

  /** The events that can move a workspace's ownership. */
  predicate MovesOwner(e: Event, ws: Text) { (e.Transfers? || e.HandsOver?) && e.ws == ws }

  lemma ProvisionOwners(d: Db, n: NewWorkspace, ws: Text, id: Text)
    requires n.id != ws
    ensures IsOwner(Provision(d, n).1, ws, id) <==> IsOwner(d, ws, id)
  {
    assert (n.id, n.ownerId) != (ws, id);
  }

  lemma DeleteOwners(d: Db, gone: Text, ws: Text, id: Text)
    requires gone != ws
    ensures IsOwner(DeleteWorkspace(d, gone), ws, id) <==> IsOwner(d, ws, id)
  {
  }

  lemma TransferOwners(d: Db, e: Event, ws: Text, id: Text)
    requires e.Transfers? && e.ws != ws
    ensures IsOwner(Next(d, e), ws, id) <==> IsOwner(d, ws, id)
  {
  }

  lemma DeleteUserOwners(d: Db, at: Text, gone: Text, ws: Text, id: Text)
    requires RowsInv(d)
    ensures IsOwner(DeletePermanently(d, at, gone).1, ws, id) <==> IsOwner(d, ws, id)
  {
    if (at, gone) in d.members && IsOwner(d, ws, id) { assert id == gone ==> ws == at; }
  }

  lemma SmallOwners(d: Db, e: Event, ws: Text, id: Text)
    requires RowsInv(d)
    requires e.SetsAccess? || e.ChangesUser? || (e.HandsOver? && e.ws != ws) || (e.Invites? && e.id !in d.users)
    ensures IsOwner(Next(d, e), ws, id) <==> IsOwner(d, ws, id)
  {
    if IsOwner(d, ws, id) { assert (ws, id) in d.members; }
  }

  lemma OwnerSame(s: Sys, e: Event, ws: Text, id: Text)
    requires Inv(s) && Allowed(s, e) && ws in s.db.workspaces && ws in Next(s.db, e).workspaces && !MovesOwner(e, ws)
    ensures IsOwner(Next(s.db, e), ws, id) <==> IsOwner(s.db, ws, id)
  {
    if e.Provisions? {
      ProvisionOwners(s.db, e.request, ws, id);
    } else if e.DeletesWorkspace? {
      DeleteOwners(s.db, e.ws, ws, id);
    } else if e.Transfers? {
      TransferOwners(s.db, e, ws, id);
    } else if e.DeletesUser? {
      DeleteUserOwners(s.db, e.ws, e.id, ws, id);
    } else {
      SmallOwners(s.db, e, ws, id);
    }
  }

  lemma TransferMoves(d: Db, ws: Text, target: Option<Text>, owner: Option<Text>, expected: Option<nat>)
    requires target.Some? ==> (ws, target.value) in d.members
    ensures var (r, after) := Transfer(d, ws, target, owner, expected); after == d || SoleOwner(after, ws, target.value)
  {
  }

  lemma HandOverMoves(d: Db, ws: Text, from: Text, to: Text)
    requires SoleOwner(d, ws, from)
    ensures var (r, after) := TransferOwnership(d, ws, from, to); after == d || SoleOwner(after, ws, to)
  {
    var (r, after) := TransferOwnership(d, ws, from, to);
    forall other | IsOwner(after, ws, other) && r.Done? ensures other == to {
      if other != to && other != from { assert IsOwner(d, ws, other); }
    }
  }

  lemma NewWorkspaceOwned(d: Db, n: NewWorkspace)
    requires RowsInv(d) && n.id !in d.workspaces && n.id in Provision(d, n).1.workspaces
    ensures SoleOwner(Provision(d, n).1, n.id, n.ownerId)
  {
  }

  lemma MovedOwner(d: Db, e: Event, ws: Text, id: Text)
    requires SoleOwner(d, ws, id) && MovesOwner(e, ws) &&
      (e.Transfers? && e.target.Some? ==> (ws, e.target.value) in d.members)
    ensures HasSoleOwner(Next(d, e), ws)
  {
    assert SoleOwner(d, ws, id);
    if e.Transfers? {
      TransferMoves(d, ws, e.target, e.owner, e.expected);
    } else if e.from == id {
      HandOverMoves(d, ws, e.from, e.to);
    } else {
      assert !IsOwner(d, ws, e.from);
    }
  }

  lemma OwnersKept(s: Sys, e: Event, ws: Text)
    requires Inv(s) && Allowed(s, e) && ws in Next(s.db, e).workspaces
    ensures HasSoleOwner(Next(s.db, e), ws)
  {
    if ws !in s.db.workspaces {
      NextControl(s.db, e);
      NewWorkspaceOwned(s.db, e.request);
    } else {
      assert HasSoleOwner(s.db, ws);
      var id :| SoleOwner(s.db, ws, id);
      if MovesOwner(e, ws) {
        MovedOwner(s.db, e, ws, id);
      } else {
        forall other { OwnerSame(s, e, ws, other); }
        assert SoleOwner(Next(s.db, e), ws, id);
      }
    }
  }

  /** Control rows belong to workspaces and count from 1. */
  ghost predicate ControlInv(d: Db) {
    forall ws :: ws in d.access ==> ws in d.workspaces && d.access[ws].version >= 1
  }

  /** The workspaces are the same ones, and no control row is lost or falls back. */
  ghost predicate ControlKept(d: Db, after: Db) {
    && after.workspaces == d.workspaces
    && (forall ws :: ws in d.access ==> ws in after.access && d.access[ws].version <= after.access[ws].version)
    && ControlInv(after)
  }

  lemma SetAccessControl(d: Db, ws: Text, mode: Mode, expiresAt: Option<int>, expected: Option<nat>)
    requires ControlInv(d)
    ensures ControlKept(d, SetAccess(d, ws, mode, expiresAt, expected).1)
  {
  }

  lemma TransferControl(d: Db, ws: Text, target: Option<Text>, owner: Option<Text>, expected: Option<nat>)
    requires ControlInv(d)
    ensures ControlKept(d, Transfer(d, ws, target, owner, expected).1)
  {
  }

  lemma OthersControl(d: Db, e: Event)
    requires ControlInv(d) && (e.HandsOver? || e.Invites? || e.ChangesUser? || e.DeletesUser?)
    ensures ControlKept(d, Next(d, e))
  {
  }

  lemma NextControl(d: Db, e: Event)
    requires ControlInv(d)
    ensures ControlInv(Next(d, e))
    ensures !e.Provisions? && !e.DeletesWorkspace? ==> ControlKept(d, Next(d, e))
  {
    match e
    case SetsAccess(ws, mode, expiresAt, expected) => SetAccessControl(d, ws, mode, expiresAt, expected);
    case Transfers(ws, target, owner, expected) => TransferControl(d, ws, target, owner, expected);
    case Provisions(_) =>
    case DeletesWorkspace(_) =>
    case _ => OthersControl(d, e);
  }

  lemma StepKeeps(s: Sys, e: Event)
    requires Inv(s) && Allowed(s, e)
    ensures Inv(After(s, e))
  {
    RowsKept(s, e);
    NextControl(s.db, e);
    var t := After(s, e);
    forall ws | ws in t.db.workspaces ensures HasSoleOwner(t.db, ws) { OwnersKept(s, e, ws); }
  }

  lemma {:induction false} Reachable(trace: seq<Sys>, events: seq<Event>, k: nat)
    requires Run(trace, events) && k < |trace|
    ensures Inv(trace[k])
  {
    if k > 0 {
      Reachable(trace, events, k - 1);
      StepKeeps(trace[k - 1], events[k - 1]);
    }
  }

  // --- Ownership ----------------------------------------------------------------------

  /** After any run of lifecycle requests every workspace has exactly one owner. */
  lemma ExactlyOneOwner(trace: seq<Sys>, events: seq<Event>, k: nat, ws: Text)
    requires Run(trace, events) && k < |trace| && ws in trace[k].db.workspaces
    ensures exists id :: SoleOwner(trace[k].db, ws, id)
  {
    Reachable(trace, events, k);
    assert HasSoleOwner(trace[k].db, ws);
  }

  /** A transfer to this member will not be refused. */
  ghost predicate Transferable(d: Db, ws: Text, target: Text, expected: Option<nat>) {
    && ws in d.workspaces && Guarded(d, ws, expected) && (ws, target) in d.members
    && target in d.users && UserAuthState(d.users[target]).ActiveState?
  }

  /**
   A hosting transfer from any state, several owners included, whichever owner row the query returns: it leaves
   the target as the only owner exactly when the target was no owner, or was the only one, before. It fails for one
   of several owners, whom the query may return first: the answer is then that nothing has changed.
   */
  lemma TransferLeavesOneOwner(d: Db, ws: Text, target: Text, expected: Option<nat>)
    requires Transferable(d, ws, target, expected)
    ensures (forall owner | FindsOwner(d, ws, owner) ::
      SoleOwner(Transfer(d, ws, Some(target), owner, expected).1, ws, target)) <==>
      (!IsOwner(d, ws, target) || SoleOwner(d, ws, target))
  {
    if IsOwner(d, ws, target) && !SoleOwner(d, ws, target) {
      assert FindsOwner(d, ws, Some(target)) && Transfer(d, ws, Some(target), Some(target), expected).1 == d;
    }
    forall owner | FindsOwner(d, ws, owner) && !IsOwner(d, ws, target)
      ensures SoleOwner(Transfer(d, ws, Some(target), owner, expected).1, ws, target)
    {
      TransferMoves(d, ws, Some(target), owner, expected);
      assert IsOwner(Transfer(d, ws, Some(target), owner, expected).1, ws, target);
    }
    forall owner | FindsOwner(d, ws, owner) && SoleOwner(d, ws, target)
      ensures SoleOwner(Transfer(d, ws, Some(target), owner, expected).1, ws, target)
    {
      TransferMoves(d, ws, Some(target), owner, expected);
    }
  }

  /** What a transfer answers and what it leaves alone: every other workspace, and everything if it is refused. */
  lemma TransferIsFramed(d: Db, ws: Text, target: Option<Text>, owner: Option<Text>, expected: Option<nat>)
    requires FindsOwner(d, ws, owner) && (target.Some? ==> (ws, target.value) in d.members)
    ensures var (r, after) := Transfer(d, ws, target, owner, expected);
      && (r.Done? <==> target.Some? && Transferable(d, ws, target.value, expected))
      && (r.Refused? || !r.value.changed ==> after == d)
      && (r.Done? ==> (r.value.changed <==> owner != target) && r.value.version == after.Version(ws))
      && (forall k :: k in d.members && k.0 != ws ==> k in after.members && after.members[k] == d.members[k])
      && after.members.Keys == d.members.Keys && after.users == d.users && after.workspaces == d.workspaces
  {
  }

  /**
   The hand-over inside the application moves ownership to the target alone, but not the version of the
   control state: a request guarded by a version read before it still passes.
   */
  lemma HandOverKeepsVersion(d: Db, ws: Text, from: Text, to: Text)
    requires SoleOwner(d, ws, from)
    ensures var (r, after) := TransferOwnership(d, ws, from, to);
      && (r.Done? <==>
            (ws, to) in d.members && to in d.users && d.users[to].status.Active? && d.users[to].disabledAt.None?)
      && (r.Done? ==> SoleOwner(after, ws, to) && (from != to ==> after.members[(ws, from)] == Admin))
      && (forall other, expected :: Guarded(after, other, expected) == Guarded(d, other, expected))
  {
    HandOverMoves(d, ws, from, to);
  }

  // --- Versions -----------------------------------------------------------------------

  predicate IsGuarded(e: Event, ws: Text, expected: nat) {
    (e.SetsAccess? && e.ws == ws && e.expected == Some(expected)) ||
      (e.Transfers? && e.ws == ws && e.expected == Some(expected))
  }

  /** A guarded request that changes anything met its version; with a control row, it left the next one. */
  lemma GuardedChangeBumps(s: Sys, e: Event, ws: Text, expected: nat)
    requires IsGuarded(e, ws, expected) && Next(s.db, e) != s.db
    ensures ws in s.db.workspaces && s.db.Version(ws) == expected
    ensures ws in s.db.access || e.SetsAccess? ==>
      ws in Next(s.db, e).access && Next(s.db, e).Version(ws) == expected + 1
  {
  }

  /** A workspace that is still there was there before, and its version never falls. */
  ghost predicate Ages(s: Sys, t: Sys, ws: Text) {
    && (ws in s.seen ==> ws in t.seen)
    && (ws in s.seen && ws in t.db.workspaces ==> ws in s.db.workspaces && (ws in s.db.access ==> ws in t.db.access))
    && (ws in s.seen && ws in t.db.workspaces ==> s.db.Version(ws) <= t.db.Version(ws))
  }

  lemma StepAges(s: Sys, e: Event, ws: Text)
    requires Inv(s) && Allowed(s, e)
    ensures Ages(s, After(s, e), ws)
  {
    NextControl(s.db, e);
  }

  lemma StepAgesAt(trace: seq<Sys>, events: seq<Event>, k: nat, ws: Text)
    requires Run(trace, events) && k < |events|
    ensures Ages(trace[k], trace[k + 1], ws)
  {
    Reachable(trace, events, k);
    StepAges(trace[k], events[k], ws);
  }

  lemma AgesCompose(s: Sys, t: Sys, u: Sys, ws: Text)
    requires Ages(s, t, ws) && Ages(t, u, ws)
    ensures Ages(s, u, ws)
  {
  }

  lemma {:induction false} RunAges(trace: seq<Sys>, events: seq<Event>, i: nat, j: nat, ws: Text)
    requires Run(trace, events) && i <= j < |trace|
    ensures Ages(trace[i], trace[j], ws)
  {
    if i < j {
      RunAges(trace, events, i, j - 1, ws);
      StepAgesAt(trace, events, j - 1, ws);
      AgesCompose(trace[i], trace[j - 1], trace[j], ws);
    }
  }

  /** The requests that move the version: a real access change, and a real transfer where there is a control row. */
  predicate MovesVersion(d: Db, e: Event, ws: Text) {
    && (e.SetsAccess? || (e.Transfers? && ws in d.access))
    && e.ws == ws && Next(d, e) != d
  }

  /** The version of a workspace counts its control changes: one step for each, guarded or not, and for nothing else. */
  lemma VersionCountsChanges(s: Sys, e: Event, ws: Text)
    requires Inv(s) && Allowed(s, e) && ws in s.db.workspaces && ws in Next(s.db, e).workspaces
    ensures Next(s.db, e).Version(ws) == s.db.Version(ws) + if MovesVersion(s.db, e, ws) then 1 else 0
  {
    match e
    case Provisions(n) => assert ws != n.id || s.db == Next(s.db, e);
    case SetsAccess(_, _, _, _) => SetAccessVersion(s.db, e, ws);
    case Transfers(_, _, _, _) => TransferVersion(s.db, e, ws);
    case _ => OtherVersion(s.db, e, ws);
  }

  lemma SetAccessVersion(d: Db, e: Event, ws: Text)
    requires e.SetsAccess?
    ensures Next(d, e).Version(ws) == d.Version(ws) + if MovesVersion(d, e, ws) then 1 else 0
  {
    if e.ws == ws && Next(d, e) != d { assert Next(d, e).access[ws].version == d.Version(ws) + 1; }
  }

  lemma OtherVersion(d: Db, e: Event, ws: Text)
    requires !e.Provisions? && !e.SetsAccess? && !e.Transfers? && ws in Next(d, e).workspaces
    ensures Next(d, e).Version(ws) == d.Version(ws)
  {
  }

  lemma TransferVersion(d: Db, e: Event, ws: Text)
    requires e.Transfers?
    ensures Next(d, e).Version(ws) == d.Version(ws) + if MovesVersion(d, e, ws) then 1 else 0
  {
    if e.ws == ws && ws in d.access && Next(d, e) != d {
      assert Next(d, e).access[ws].version == d.access[ws].version + 1;
    }
  }

  /** A request that carries a version some earlier one moved past changes nothing. */
  lemma LateGuardFails(s: Sys, e: Event, t: Sys, f: Event, ws: Text, expected: nat)
    requires s.db.workspaces <= s.seen && IsGuarded(e, ws, expected) && IsGuarded(f, ws, expected)
    requires expected >= 1 || ws in s.db.access || e.SetsAccess?
    requires Next(s.db, e) != s.db && Ages(After(s, e), t, ws)
    ensures Next(t.db, f) == t.db
  {
    GuardedChangeBumps(s, e, ws, expected);
    if Next(t.db, f) != t.db { GuardedChangeBumps(t, f, ws, expected); }
  }

  lemma StepOf(trace: seq<Sys>, events: seq<Event>, k: nat)
    requires Run(trace, events) && k < |events|
    ensures trace[k].db.workspaces <= trace[k].seen && trace[k + 1] == After(trace[k], events[k])
  {
    Reachable(trace, events, k);
  }

  /** Of all requests that carry the same expected version, at most one changes anything. */
  lemma AtMostOneChanges(trace: seq<Sys>, events: seq<Event>, i: nat, j: nat, ws: Text, expected: nat)
    requires Run(trace, events) && i < j < |events| && IsGuarded(events[i], ws, expected) &&
      IsGuarded(events[j], ws, expected)
    requires expected >= 1 || ws in trace[i].db.access || events[i].SetsAccess?
    requires trace[i + 1].db != trace[i].db
    ensures trace[j + 1].db == trace[j].db
  {
    StepOf(trace, events, i);
    StepOf(trace, events, j);
    RunAges(trace, events, i + 1, j, ws);
    LateGuardFails(trace[i], events[i], trace[j], events[j], ws, expected);
  }

  /** A run that goes on from `s` with `e`. */
  ghost predicate Continues(s: Sys, e: Event, trace: seq<Sys>, events: seq<Event>) {
    Run(trace, events) && |events| > 0 && trace[0] == s && events[0] == e
  }

  /** No later request with the same expected version changes anything. */
  ghost predicate LaterIdle(trace: seq<Sys>, events: seq<Event>, ws: Text, expected: nat)
    requires |trace| == |events| + 1
  {
    forall j :: 0 < j < |events| && IsGuarded(events[j], ws, expected) ==> trace[j + 1].db == trace[j].db
  }

  lemma FirstStep(s: Sys, e: Event, trace: seq<Sys>, events: seq<Event>)
    requires Continues(s, e, trace, events)
    ensures trace[1].db == Next(s.db, e)
  {
    StepOf(trace, events, 0);
  }

  lemma IdleAfterFirst(trace: seq<Sys>, events: seq<Event>, ws: Text, expected: nat)
    requires Run(trace, events) && |events| > 0 && IsGuarded(events[0], ws, expected)
    requires events[0].SetsAccess? || ws in trace[0].db.access
    requires trace[1].db != trace[0].db
    ensures LaterIdle(trace, events, ws, expected)
  {
    forall j | 0 < j < |events| && IsGuarded(events[j], ws, expected) ensures trace[j + 1].db == trace[j].db {
      AtMostOneChanges(trace, events, 0, j, ws, expected);
    }
  }

  lemma FirstIsLast(s: Sys, e: Event, trace: seq<Sys>, events: seq<Event>, ws: Text, expected: nat)
    requires Continues(s, e, trace, events) && IsGuarded(e, ws, expected) && Next(s.db, e) != s.db
    requires e.SetsAccess? || ws in s.db.access
    ensures LaterIdle(trace, events, ws, expected)
  {
    FirstStep(s, e, trace, events);
    IdleAfterFirst(trace, events, ws, expected);
  }

  lemma StaysUnhosted(d: Db, e: Event, ws: Text, expected: nat)
    requires e.Transfers? && IsGuarded(e, ws, expected) && Next(d, e) != d && ws !in d.access
    ensures expected == 0 && ws in Next(d, e).workspaces && ws !in Next(d, e).access
  {
  }

  lemma FirstControlChanges(d: Db, ws: Text)
    requires ws in d.workspaces && ws !in d.access
    ensures Next(d, SetsAccess(ws, Open, None, Some(0))) != d
  {
    assert ws in Next(d, SetsAccess(ws, Open, None, Some(0))).access;
  }

  lemma TwoSteps(s: Sys, e: Event, f: Event) returns (trace: seq<Sys>, events: seq<Event>)
    requires Inv(s) && Allowed(s, e) && Allowed(After(s, e), f)
    ensures Continues(s, e, trace, events)
    ensures trace == [s, After(s, e), After(After(s, e), f)] && events == [e, f]
  {
    trace, events := [s, After(s, e), After(After(s, e), f)], [e, f];
  }

  lemma SecondChanges(trace: seq<Sys>, events: seq<Event>, ws: Text, expected: nat)
    requires |trace| == |events| + 1 && |events| == 2 && IsGuarded(events[1], ws, expected)
    requires trace[2].db != trace[1].db
    ensures !LaterIdle(trace, events, ws, expected)
  {
  }

  /**
   After a transfer that left the version at 0, an access change expecting 0 comes through, whatever it
   transferred.
   */
  lemma ComesThroughNext(s: Sys, e: Event, ws: Text, expected: nat) returns (trace: seq<Sys>, events: seq<Event>)
    requires Inv(s) && Allowed(s, e) && IsGuarded(e, ws, expected) && Next(s.db, e) != s.db
    requires e.Transfers? && ws !in s.db.access
    ensures Continues(s, e, trace, events) && !LaterIdle(trace, events, ws, expected)
  {
    var again := SetsAccess(ws, Open, None, Some(0));
    StaysUnhosted(s.db, e, ws, expected);
    FirstControlChanges(Next(s.db, e), ws);
    trace, events := TwoSteps(s, e, again);
    SecondChanges(trace, events, ws, expected);
  }

  /**
   The guard, exactly. A request that met its version and changed something is the last one with that version to
   do so, in every run that follows, if and only if it sets the access state or the workspace has a control row.
   Otherwise it is a transfer that left the version at 0, and an access change expecting 0 comes through next.
   */
  lemma GuardIsExact(s: Sys, e: Event, ws: Text, expected: nat)
    requires Inv(s) && Allowed(s, e) && IsGuarded(e, ws, expected) && Next(s.db, e) != s.db
    ensures (e.SetsAccess? || ws in s.db.access) <==>
      (forall trace: seq<Sys>, events: seq<Event> :: Continues(s, e, trace, events) ==>
        LaterIdle(trace, events, ws, expected))
  {
    if e.SetsAccess? || ws in s.db.access {
      forall trace: seq<Sys>, events: seq<Event> | Continues(s, e, trace, events) ensures LaterIdle(trace, events, ws,
        expected) {
        FirstIsLast(s, e, trace, events, ws, expected);
      }
    } else {
      var trace, events := ComesThroughNext(s, e, ws, expected);
    }
  }

  /** Without a control row the version stays 0, and two transfers expecting 0 both change the owner. */
  lemma UnhostedTransfersBothChange(ws: Text, a: Text, b: Text, d: Db)
    requires a != b && ws in d.workspaces && ws !in d.access && a in d.users && b in d.users
    requires UserAuthState(d.users[a]).ActiveState? && UserAuthState(d.users[b]).ActiveState?
    requires SoleOwner(d, ws, a) && (ws, b) in d.members
    ensures var once := Transfer(d, ws, Some(b), Some(a), Some(0)).1;
      var twice := Transfer(once, ws, Some(a), Some(b), Some(0)).1;
      && once != d && twice != once
      && SoleOwner(once, ws, b) && SoleOwner(twice, ws, a)
  {
    var once := Transfer(d, ws, Some(b), Some(a), Some(0)).1;
    assert IsOwner(once, ws, b) && !IsOwner(once, ws, a);
    var twice := Transfer(once, ws, Some(a), Some(b), Some(0)).1;
    assert IsOwner(twice, ws, a) && !IsOwner(twice, ws, b);
  }

  /** Two owners, which the unique index on memberships rules out: a repeated transfer to one of them keeps both. */
  lemma RepeatedTransferKeepsTwoOwners(d: Db, ws: Text, a: Text, b: Text)
    requires a != b && IsOwner(d, ws, a) && IsOwner(d, ws, b) && Transferable(d, ws, a, None)
    ensures FindsOwner(d, ws, Some(a))
    ensures var (r, after) := Transfer(d, ws, Some(a), Some(a), None);
      r.Done? && !r.value.changed && IsOwner(after, ws, a) && IsOwner(after, ws, b)
  {
  }
}
