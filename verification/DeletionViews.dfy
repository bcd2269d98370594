/**
 The deletion of a workspace as the other modules see it. Each of them keeps the part of the store it needs; here
 that part is compared with the tables, and found to be deleted in the same way.
 */
module DeletionViews {
  import opened Wrappers
  import opened JsonText
  import opened Deletion
  import Binding = IdentityBinding
  import Life = Lifecycle
  import Records
  import Tables = IdentityTables

  predicate IsMemberRow(rows: Rows, k: (Table, Text), ws: Text, user: Text) {
    k in rows && k.0.Memberships? && rows[k].workspace == Some(ws) && rows[k].user == Some(user)
  }

  ghost predicate MemberOf(rows: Rows, ws: Text, user: Text) { exists k :: IsMemberRow(rows, k, ws, user) }

  ghost predicate SameMembers(rows: Rows, d: Life.Db) {
    forall ws, user :: MemberOf(rows, ws, user) <==> (ws, user) in d.members
  }

  ghost predicate SameUsers(rows: Rows, users: set<Text>) { forall id :: (Users, id) in rows <==> id in users }

  ghost predicate SameControl(rows: Rows, d: Life.Db) {
    && (forall id :: (Workspaces, id) in rows <==> id in d.workspaces)
    && (forall id :: (Access, id) in rows <==> id in d.access)
  }

  /** The columns of a membership are never null. */
  predicate MembershipsFilled(rows: Rows) {
    forall k :: k in rows && k.0.Memberships? ==> rows[k].workspace.Some? && rows[k].user.Some?
  }

  /** What the tables call a member of this workspace alone is what the lifecycle does. */
  lemma MemberOnlyAgrees(rows: Rows, d: Life.Db, ws: Text, user: Text)
    requires SameMembers(rows, d) && MembershipsFilled(rows)
    ensures MemberOnly(rows, ws, user) <==> (ws, user) in d.members && !Life.MemberElsewhere(d, ws, user)
  {
    if MemberOnly(rows, ws, user) {
      OnlyHereInLifecycle(rows, d, ws, user);
    } else if (ws, user) in d.members {
      ElsewhereInLifecycle(rows, d, ws, user);
    }
  }

  lemma OnlyHereInLifecycle(rows: Rows, d: Life.Db, ws: Text, user: Text)
    requires SameMembers(rows, d) && MemberOnly(rows, ws, user)
    ensures (ws, user) in d.members && !Life.MemberElsewhere(d, ws, user)
  {
    var k :| IsMembership(rows, k, user) && rows[k].workspace == Some(ws);
    assert IsMemberRow(rows, k, ws, user) && MemberOf(rows, ws, user);
    forall other | (other, user) in d.members ensures other == ws {
      assert MemberOf(rows, other, user);
      var l :| IsMemberRow(rows, l, other, user);
      assert IsMembership(rows, l, user);
    }
  }

  lemma ElsewhereInLifecycle(rows: Rows, d: Life.Db, ws: Text, user: Text)
    requires SameMembers(rows, d) && MembershipsFilled(rows) && !MemberOnly(rows, ws, user) && (ws, user) in d.members
    ensures Life.MemberElsewhere(d, ws, user)
  {
    assert MemberOf(rows, ws, user);
    var k :| IsMemberRow(rows, k, ws, user);
    assert IsMembership(rows, k, user);
    var l :| IsMembership(rows, l, user) && rows[l].workspace != Some(ws);
    var other := rows[l].workspace.value;
    assert IsMemberRow(rows, l, other, user) && MemberOf(rows, other, user);
    assert (other, user) in d.members;
  }

  lemma MembersLeft(rows: Rows, ws: Text, after: Rows, other: Text, user: Text)
    requires DeletedExactly(rows, ws, after)
    ensures MemberOf(after, other, user) <==> MemberOf(rows, other, user) && other != ws
  {
    if MemberOf(after, other, user) {
      var k :| IsMemberRow(after, k, other, user);
      assert !Doomed(rows, ws, k) && IsMemberRow(rows, k, other, user);
    }
    if MemberOf(rows, other, user) && other != ws {
      var k :| IsMemberRow(rows, k, other, user);
      assert !Doomed(rows, ws, k) && IsMemberRow(after, k, other, user);
    }
  }

  lemma UsersLeft(rows: Rows, ws: Text, after: Rows, user: Text)
    requires DeletedExactly(rows, ws, after)
    ensures (Users, user) in after <==> (Users, user) in rows && !MemberOnly(rows, ws, user)
  {
    if (Users, user) in rows { assert Doomed(rows, ws, (Users, user)) <==> MemberOnly(rows, ws, user); }
  }

  lemma ControlLeft(rows: Rows, ws: Text, middle: Rows, after: Rows, id: Text)
    requires DeletedExactly(rows, ws, middle) && Forgotten(middle, ws, after)
    ensures (Workspaces, id) in after <==> (Workspaces, id) in rows && id != ws
    ensures (Access, id) in after <==> (Access, id) in rows && id != ws
  {
    if (Workspaces, id) in rows { assert Doomed(rows, ws, (Workspaces, id)) <==> id == ws; }
    if (Access, id) in rows { assert !Doomed(rows, ws, (Access, id)); }
  }

  lemma ForgottenKeeps(middle: Rows, ws: Text, after: Rows, other: Text, user: Text)
    requires Forgotten(middle, ws, after)
    ensures MemberOf(after, other, user) <==> MemberOf(middle, other, user)
    ensures (Users, user) in after <==> (Users, user) in middle
  {
    if MemberOf(after, other, user) {
      var k :| IsMemberRow(after, k, other, user);
      assert IsMemberRow(middle, k, other, user);
    }
    if MemberOf(middle, other, user) {
      var k :| IsMemberRow(middle, k, other, user);
      assert IsMemberRow(after, k, other, user);
    }
  }

  /** The lifecycle's deletion is that of the tables: the same workspaces, users, memberships and control rows stay. */
  lemma LifecycleAgrees(rows: Rows, d: Life.Db, ws: Text, middle: Rows, after: Rows)
    requires SameMembers(rows, d) && SameUsers(rows, d.users.Keys) && SameControl(rows, d) && MembershipsFilled(rows)
    requires ws in d.workspaces && DeletedExactly(rows, ws, middle) && Forgotten(middle, ws, after)
    ensures var left := Life.DeleteWorkspace(d, ws);
      SameMembers(after, left) && SameUsers(after, left.users.Keys) && SameControl(after, left)
  {
    var left := Life.DeleteWorkspace(d, ws);
    forall other, user ensures MemberOf(after, other, user) <==> (other, user) in left.members {
      MembersLeft(rows, ws, middle, other, user);
      ForgottenKeeps(middle, ws, after, other, user);
    }
    forall user ensures (Users, user) in after <==> user in left.users {
      UsersLeft(rows, ws, middle, user);
      ForgottenKeeps(middle, ws, after, ws, user);
      MemberOnlyAgrees(rows, d, ws, user);
    }
    forall id { ControlLeft(rows, ws, middle, after, id); }
  }

  /** A session's user column is null while it waits for its user. */
  ghost predicate SameSessions(rows: Rows, sessions: map<Text, Tables.Session>) {
    forall token ::
      ((Sessions, token) in rows <==> token in sessions) &&
      (token in sessions ==> rows[(Sessions, token)].user == sessions[token].userId)
  }

  ghost predicate SameBelonging(rows: Rows, members: set<Text>) {
    forall user :: HasMembership(rows, user) <==> user in members
  }

  lemma BelongingLeft(rows: Rows, ws: Text, after: Rows, user: Text)
    requires DeletedExactly(rows, ws, after)
    ensures HasMembership(after, user) <==> HasMembership(rows, user) && !MemberOnly(rows, ws, user)
  {
    if HasMembership(after, user) {
      var k :| IsMembership(after, k, user);
      assert !Doomed(rows, ws, k) && IsMembership(rows, k, user);
    }
    if HasMembership(rows, user) && !MemberOnly(rows, ws, user) {
      var k :| IsMembership(rows, k, user) && rows[k].workspace != Some(ws);
      assert !Doomed(rows, ws, k) && IsMembership(after, k, user);
    }
  }

  lemma SessionsLeft(rows: Rows, ws: Text, after: Rows, token: Text)
    requires DeletedExactly(rows, ws, after)
    ensures var k := (Sessions, token);
      && (k in after <==> k in rows && !(rows[k].user.Some? && MemberOnly(rows, ws, rows[k].user.value)))
      && (k in after ==> after[k] == rows[k])
  {
    var k := (Sessions, token);
    if k in rows {
      assert Doomed(rows, ws, k) <==> rows[k].user.Some? && MemberOnly(rows, ws, rows[k].user.value);
    }
  }

  /**
   And the identity store's is the removal of the users who belonged to the workspace alone, with their sessions:
   waiting sessions stay, as do the members of other workspaces.
   */
  lemma BindingAgrees(rows: Rows, s: Binding.Store, ws: Text, middle: Rows, gone: set<Text>)
    requires SameUsers(rows, s.users.Keys) && SameSessions(rows, s.sessions) && SameBelonging(rows, s.members)
    requires DeletedExactly(rows, ws, middle) && forall user :: user in gone <==> MemberOnly(rows, ws, user)
    ensures var left := Binding.PurgeUsers(s, gone);
      SameUsers(middle, left.users.Keys) && SameSessions(middle, left.sessions) && SameBelonging(middle, left.members)
  {
    forall user { UsersLeft(rows, ws, middle, user); }
    forall user { BelongingLeft(rows, ws, middle, user); }
    forall token { SessionsLeft(rows, ws, middle, token); }
  }

  // --- Records ----------------------------------------------------------------------

  function RecordTable(kind: Records.Kind): Table {
    match kind
    case Company => Companies
    case Person => People
    case Engagement => Engagements
    case Deal => Deals
    case Offering => Offerings
    case Activity => Activities
  }

  function LinkTable(link: Records.Link): Table {
    match link
    case CompanyPerson(_, _, _) => CompanyPeople
    case Stakeholder(_, _, _) => DealStakeholders
    case OfferingLink(_, _, _, _) => OfferingLinks
    case Tagging(_, _, _, _) => Taggings
    case FieldValue(_, _, _, _) => CustomFieldValues
    case ListMember(_, _, _, _) => ListMembers
  }

  predicate HoldsLinks(table: Table) {
    table.CompanyPeople? || table.DealStakeholders? || table.OfferingLinks? || table.Taggings? ||
      table.CustomFieldValues? || table.ListMembers?
  }

  /** The record tables hold these records, each in its workspace and in its encoding. */
  ghost predicate SameRecords(rows: Rows, records: map<Records.Key, Records.Record>, encode: Records.Record -> Json) {
    forall kind, id ::
      var k := (RecordTable(kind), id);
      && (k in rows <==> (kind, id) in records)
      && (k in rows ==>
            rows[k].workspace == Some(records[(kind, id)].workspace) && rows[k].data == encode(records[(kind, id)]))
  }

  /** And the link tables these links. */
  ghost predicate SameLinks(rows: Rows, links: map<Text, Records.Link>, encode: Records.Link -> Json) {
    && (forall id :: id in links ==> HasLink(rows, id, links[id], encode))
    && (forall k :: k in rows && HoldsLinks(k.0) ==> k.1 in links && LinkTable(links[k.1]) == k.0)
  }

  predicate HasLink(rows: Rows, id: Text, link: Records.Link, encode: Records.Link -> Json) {
    var k := (LinkTable(link), id);
    k in rows && rows[k].workspace == Some(link.workspace) && rows[k].data == encode(link)
  }

  /** Of the tables with records and links, the deletion empties the workspace's rows and touches no other. */
  lemma ScopedLeft(rows: Rows, ws: Text, middle: Rows, after: Rows, k: (Table, Text))
    requires DeletedExactly(rows, ws, middle) && Forgotten(middle, ws, after) && Scoped(k.0)
    ensures k in after <==> k in rows && rows[k].workspace != Some(ws)
    ensures k in after ==> after[k] == rows[k]
  {
    if k in rows { assert Doomed(rows, ws, k) <==> rows[k].workspace == Some(ws); }
  }

  /**
   The tables are left with the records and links of the other workspaces, unchanged; and with references that
   stayed inside their workspace, none of those refers to a row that is gone.
   */
  lemma RecordsAgree(rows: Rows, d: Records.Db, ws: Text, middle: Rows, after: Rows,
        encode: Records.Record -> Json, encodeLink: Records.Link -> Json)
    requires SameRecords(rows, d.records, encode) && SameLinks(rows, d.links, encodeLink)
    requires DeletedExactly(rows, ws, middle) && Forgotten(middle, ws, after)
    ensures var left := Records.WithoutWorkspace(d, ws);
      && SameRecords(after, left.records, encode) && SameLinks(after, left.links, encodeLink)
      && (Records.Sound(d) ==> Records.Sound(left))
  {
    RecordsLeft(rows, d, ws, middle, after, encode);
    LinksLeft(rows, d, ws, middle, after, encodeLink);
    if Records.Sound(d) { Records.WithoutWorkspaceStaysSound(d, ws); }
  }

  lemma RecordsLeft(rows: Rows, d: Records.Db, ws: Text, middle: Rows, after: Rows, encode: Records.Record -> Json)
    requires SameRecords(rows, d.records, encode) && DeletedExactly(rows, ws, middle) && Forgotten(middle, ws, after)
    ensures SameRecords(after, Records.WithoutWorkspace(d, ws).records, encode)
  {
    forall kind, id { ScopedLeft(rows, ws, middle, after, (RecordTable(kind), id)); }
  }

  lemma LinksLeft(rows: Rows, d: Records.Db, ws: Text, middle: Rows, after: Rows, encode: Records.Link -> Json)
    requires SameLinks(rows, d.links, encode) && DeletedExactly(rows, ws, middle) && Forgotten(middle, ws, after)
    ensures SameLinks(after, Records.WithoutWorkspace(d, ws).links, encode)
  {
    var left := Records.WithoutWorkspace(d, ws).links;
    forall id | id in left ensures HasLink(after, id, left[id], encode) {
      LinkLeft(rows, d.links[id], id, ws, middle, after, encode);
    }
    forall k | k in after && HoldsLinks(k.0) ensures k.1 in left && LinkTable(left[k.1]) == k.0 {
      ScopedLeft(rows, ws, middle, after, k);
      assert HasLink(rows, k.1, d.links[k.1], encode);
    }
  }

  lemma LinkLeft(rows: Rows, link: Records.Link, id: Text, ws: Text, middle: Rows, after: Rows,
        encode: Records.Link -> Json)
    requires HasLink(rows, id, link, encode) && link.workspace != ws
    requires DeletedExactly(rows, ws, middle) && Forgotten(middle, ws, after)
    ensures HasLink(after, id, link, encode)
  {
    ScopedLeft(rows, ws, middle, after, (LinkTable(link), id));
  }
}
