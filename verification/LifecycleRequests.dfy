/**
 What each lifecycle request answers and writes, row by row and column by column, and so each event of a run.
 */
module LifecycleRequests {
  import opened Wrappers
  import opened JsonText
  import opened Policy
  import opened Lifecycle

  /** The version a guard is compared with: the control row's, or 0 where there is none. */
  predicate VersionIs(d: Db, ws: Text, version: nat) {
    if ws in d.access then d.access[ws].version == version else version == 0
  }

  /** The workspace's trail is longer by this entry, and no other trail has changed. */
  predicate Recorded(d: Db, after: Db, ws: Text, entry: Entry) {
    && ws in after.audit && after.audit == d.audit[ws := after.audit[ws]]
    && after.audit[ws] == (if ws in d.audit then d.audit[ws] else []) + [entry]
  }

  /** Only the control row of this workspace, and its trail, may differ. */
  predicate OnlyControl(d: Db, after: Db, ws: Text) {
    && after.workspaces == d.workspaces && after.users == d.users && after.members == d.members
    && ws in after.access && after.access == d.access[ws := after.access[ws]]
  }

  /** The control row already says so. */
  predicate AlreadySet(d: Db, ws: Text, mode: Mode, expiresAt: Option<int>) {
    ws in d.access && d.access[ws].mode == mode && d.access[ws].expiresAt == expiresAt
  }

  /**
   An access change is done exactly for a workspace that exists and at the expected version. The control row then has
   the mode and the expiry that were asked for, whatever it had before, and is the answer; only a real change counts.
   */
  lemma AccessIsSet(d: Db, ws: Text, mode: Mode, expiresAt: Option<int>, expected: Option<nat>, version: nat)
    requires VersionIs(d, ws, version)
    ensures var (r, after) := SetAccess(d, ws, mode, expiresAt, expected);
      && (r.Done? <==> ws in d.workspaces && (expected == None || expected == Some(version)))
      && (r.Refused? ==> after == d && r.error == if ws in d.workspaces then VersionConflict(version)
                                                  else UnknownWorkspace)
      && (r.Done? ==>
            && OnlyControl(d, after, ws) && r.value == after.access[ws]
            && after.access[ws].mode == mode && after.access[ws].expiresAt == expiresAt
            && if AlreadySet(d, ws, mode, expiresAt) then after == d
               else after.access[ws].version == version + 1 && Recorded(d, after, ws, AccessSet))
    ensures SetAccess(d, ws, mode, expiresAt, expected).1 == Next(d, SetsAccess(ws, mode, expiresAt, expected))
  {
  }

  /** The rows the two queries may return: a member with the id or the email, and a member who owns the workspace. */
  lemma QueriesFind(d: Db, ws: Text, who: Who, found: Option<Text>, owner: Option<Text>)
    requires FindsMember(d, ws, who, found) && FindsOwner(d, ws, owner)
    ensures found.Some? ==> (ws, found.value) in d.members && found.value in d.users
    ensures found.Some? ==> if who.ById? then found.value == who.id else d.users[found.value].email == who.email
    ensures found.None? ==> forall id :: id in d.users && (ws, id) in d.members ==>
      if who.ById? then id != who.id else d.users[id].email != who.email
    ensures owner.Some? ==> (ws, owner.value) in d.members && d.members[(ws, owner.value)] == Owner
    ensures owner.None? ==> forall id :: id in d.users && (ws, id) in d.members ==> d.members[(ws, id)] != Owner
  {
    forall id | id in d.users && (ws, id) in d.members && found.None? ensures !Meets(d, id, who) {}
    forall id | id in d.users && owner.None? ensures !IsOwner(d, ws, id) {}
  }

  /** Who can be made owner: whoever is not disabled and active, or has a password where there is no status. */
  lemma EligibleExactlyWhen(u: User)
    ensures UserAuthState(u) == ActiveState <==>
      u.disabledAt == None && (u.status == Active || (u.status == NoStatus && u.hasPassword))
    ensures UserAuthState(u) == PendingState <==>
      u.disabledAt == None && (u.status == Pending || (u.status == NoStatus && !u.hasPassword))
  {
  }

  predicate Eligible(d: Db, target: Option<Text>) {
    && target.Some? && target.value in d.users && d.users[target.value].disabledAt == None
    && (d.users[target.value].status == Active ||
        (d.users[target.value].status == NoStatus && d.users[target.value].hasPassword))
  }

  /** The target owns the workspace, earlier owners are admins, and every other row is as it was. */
  predicate OwnerMoved(d: Db, after: Db, ws: Text, target: Text) {
    && after.members.Keys == d.members.Keys
    && forall k :: k in d.members ==>
         after.members[k] == if k == (ws, target) then Owner
                             else if k.0 == ws && d.members[k] == Owner then Admin else d.members[k]
  }

  /** The control row keeps its mode and expiry and counts one more change; where there is none, none appears. */
  predicate ControlCounted(d: Db, after: Db, ws: Text) {
    && after.access.Keys == d.access.Keys
    && forall other :: other in d.access ==>
         && after.access[other].mode == d.access[other].mode &&
               after.access[other].expiresAt == d.access[other].expiresAt
         && after.access[other].version == d.access[other].version + if other == ws then 1 else 0
  }

  /** When a transfer is refused, and as what, and when the owner changes; whichever rows the two queries return. */
  lemma TransferAnswers(d: Db, ws: Text, target: Option<Text>, owner: Option<Text>, expected: Option<nat>, version: nat)
    requires VersionIs(d, ws, version)
    ensures var (r, after) := Transfer(d, ws, target, owner, expected);
      if ws !in d.workspaces then r == Refused(UnknownWorkspace) && after == d
      else if expected != None && expected != Some(version) then r == Refused(VersionConflict(version)) && after == d
      else if !Eligible(d, target) then r == Refused(NotEligible) && after == d
      else if owner == target then r == Done(Transferred(target.value, None, version, false)) && after == d
      else r.Done? && r.value.changed
    ensures Transfer(d, ws, target, owner, expected).1 == Next(d, Transfers(ws, target, owner, expected))
  {
    if target.Some? && target.value in d.users { EligibleExactlyWhen(d.users[target.value]); }
  }

  /** What a transfer that changes the owner answers and writes. */
  lemma TransferWrites(d: Db, ws: Text, target: Text, owner: Option<Text>, expected: Option<nat>, version: nat)
    requires VersionIs(d, ws, version) && (ws, target) in d.members
    ensures var (r, after) := Transfer(d, ws, Some(target), owner, expected);
      r.Done? && r.value.changed ==>
        && r.value.owner == target && r.value.previous == owner
        && r.value.version == version + (if ws in d.access then 1 else 0) && VersionIs(after, ws, r.value.version)
        && after.workspaces == d.workspaces && after.users == d.users && OwnerMoved(d, after, ws, target)
        && ControlCounted(d, after, ws) && Recorded(d, after, ws, OwnerTransferred)
  {
  }

  /** A hand-over inside the application: to an active member, by the owner, and nothing else is touched. */
  lemma HandOverIs(d: Db, ws: Text, from: Text, to: Text)
    ensures var (r, after) := TransferOwnership(d, ws, from, to);
      if (ws, from) !in d.members || d.members[(ws, from)] != Owner then r == Refused(InvalidState) && after == d
      else if (ws, to) !in d.members then r == Refused(UserNotFound) && after == d
      else if !(to in d.users && d.users[to].status == Active && d.users[to].disabledAt == None) then
        r == Refused(InvalidState) && after == d
      else
        r == Done(()) && after == d.(members := after.members) && after.members.Keys == d.members.Keys &&
        forall k :: k in d.members ==>
          after.members[k] == if k == (ws, to) then Owner else if k == (ws, from) then Admin else d.members[k]
    ensures TransferOwnership(d, ws, from, to).1 == Next(d, HandsOver(ws, from, to))
  {
  }

  /**
   Provisioning: refused for an email somebody has, and for a window without room where a code would be needed.
   Otherwise the workspace, its owner and a control row of version 1 are there, open and without expiry by default.
   */
  lemma ProvisionIs(d: Db, n: NewWorkspace)
    ensures var (r, after) := Provision(d, n);
      if exists id :: id in d.users && d.users[id].email == n.email then r == Refused(IdentityUnavailable) && after == d
      else if !n.hasCredential && n.windowFull then r == Refused(RateLimited) && after == d
      else
        && r == Done(1) && after.workspaces == d.workspaces + {n.id}
        && after.users == d.users[n.ownerId := User(n.email, if n.hasCredential then Active else Pending, None, false)]
        && after.members == d.members[(n.id, n.ownerId) := Owner]
        && n.id in after.access && after.access == d.access[n.id := after.access[n.id]]
        && after.access[n.id].version == 1 && after.access[n.id].expiresAt == n.expiresAt
        && after.access[n.id].mode == (if n.mode == Some(Locked) then Locked else Open)
        && Recorded(d, after, n.id, Provisioned)
    ensures Provision(d, n).1 == Next(d, Provisions(n))
  {
  }

  /** An invitation adds a pending user with one membership, never an owner and never an email somebody has. */
  lemma InvitationIs(d: Db, ws: Text, id: Text, email: Text, role: Role)
    ensures var (r, after) := CreatePending(d, ws, id, email, role);
      if role == Owner then r == Refused(InvalidState) && after == d
      else if exists other :: other in d.users && d.users[other].email == email then r == Refused(Conflict) &&
        after == d
      else
        && r == Done(()) && after.users == d.users[id := User(email, Pending, None, false)]
        && after == d.(users := after.users, members := d.members[(ws, id) := role])
    ensures CreatePending(d, ws, id, email, role).1 == Next(d, Invites(ws, id, email, role))
  {
  }

  /** A deletion takes the user and every membership of theirs, unless they own the workspace. */
  lemma UserDeletionIs(d: Db, ws: Text, id: Text)
    ensures var (r, after) := DeletePermanently(d, ws, id);
      if (ws, id) !in d.members || id !in d.users then r == Refused(UserNotFound) && after == d
      else if d.members[(ws, id)] == Owner then r == Refused(InvalidState) && after == d
      else
        && r == Done(()) && after == d.(users := after.users, members := after.members)
        && (forall other :: other in after.users <==> other in d.users && other != id)
        && (forall other :: other in after.users ==> after.users[other] == d.users[other])
        && (forall k :: k in after.members <==> k in d.members && k.1 != id)
        && (forall k :: k in after.members ==> after.members[k] == d.members[k])
    ensures DeletePermanently(d, ws, id).1 == Next(d, DeletesUser(ws, id))
  {
  }

  /** A workspace goes with its memberships, its control row and its trail, and with the members who have no other. */
  lemma WorkspaceDeletionIs(d: Db, ws: Text)
    requires ws in d.workspaces
    ensures var after := DeleteWorkspace(d, ws);
      && after.workspaces == d.workspaces - {ws}
      && (forall id :: id in after.users <==>
            id in d.users && ((ws, id) in d.members ==> exists k :: k in d.members && k.1 == id && k.0 != ws))
      && (forall id :: id in after.users ==> after.users[id] == d.users[id])
      && (forall k :: k in after.members <==> k in d.members && k.0 != ws)
      && (forall k :: k in after.members ==> after.members[k] == d.members[k])
      && (forall other :: other in after.access <==> other in d.access && other != ws)
      && (forall other :: other in after.access ==> after.access[other] == d.access[other])
      && (forall other :: other in after.audit <==> other in d.audit && other != ws)
      && (forall other :: other in after.audit ==> after.audit[other] == d.audit[other])
    ensures DeleteWorkspace(d, ws) == Next(d, DeletesWorkspace(ws))
  {
  }

  // --- Over every run ----------------------------------------------------------------------

  /** The requests that can change what the control row of a workspace says. */
  predicate SetsControl(e: Event, ws: Text) {
    (e.SetsAccess? && e.ws == ws) || (e.DeletesWorkspace? && e.ws == ws) || (e.Provisions? && e.request.id == ws)
  }

  predicate Says(d: Db, ws: Text, mode: Mode, expiresAt: Option<int>) {
    ws in d.access && d.access[ws].mode == mode && d.access[ws].expiresAt == expiresAt
  }

  lemma StillSays(d: Db, e: Event, ws: Text, mode: Mode, expiresAt: Option<int>)
    requires Says(d, ws, mode, expiresAt) && !SetsControl(e, ws)
    ensures Says(Next(d, e), ws, mode, expiresAt)
  {
  }

  /** Over every run: a workspace that was locked is locked until access is set again, whoever owns it meanwhile. */
  lemma {:induction false} AccessStays(trace: seq<Sys>, events: seq<Event>, i: nat, k: nat, ws: Text, mode: Mode,
        expiresAt: Option<int>)
    requires Run(trace, events) && i <= k < |trace| && Says(trace[i].db, ws, mode, expiresAt)
    requires forall m :: i <= m < k ==> !SetsControl(events[m], ws)
    ensures Says(trace[k].db, ws, mode, expiresAt)
  {
    if i < k {
      AccessStays(trace, events, i, k - 1, ws, mode, expiresAt);
      assert trace[k] == After(trace[k - 1], events[k - 1]);
      StillSays(trace[k - 1].db, events[k - 1], ws, mode, expiresAt);
    }
  }
}
