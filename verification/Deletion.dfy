/**
 Permanent deletion of a workspace: every table that carries a workspace column is emptied of its rows, and so
 are the users and sessions that belonged to nothing else.
 */
module Deletion {
  import opened Wrappers
  import opened JsonText

  datatype Table =
    | Memberships | McpClients | WorkspaceCounters | Companies | People | CompanyPeople | Pipelines | Stages
    | Engagements | Deals | DealStakeholders | Offerings | OfferingLinks | Activities | Tags | Taggings | Lists
    | ListMembers | CustomFieldDefinitions | CustomFieldValues | SavedViews | PendingActions | AuditEvents
    | Workspaces | Users | Sessions | AuthCodes | OpenauthKv
    | Access | Outbox | ServiceAudit

  /** A row with its workspace column and its user column, where the table has them. */
  datatype Row = Row(workspace: Option<Text>, user: Option<Text>, data: Json)

  /** All tables in one map, by table and primary key; a user's key is the user id. */
  type Rows = map<(Table, Text), Row>

  /** The tables of the application whose schema has a workspace column. */
  predicate Scoped(table: Table) {
    !(table.Workspaces? || table.Users? || table.Sessions? || table.AuthCodes? || table.OpenauthKv? ||
      table.Access? || table.Outbox? || table.ServiceAudit?)
  }

  /** The list the deletion goes through, in its order. */
  const WORKSPACE_SCOPED_TABLES: seq<Table> := [
    Memberships, McpClients, WorkspaceCounters, Companies, People, CompanyPeople, Pipelines, Stages,
    Engagements, Deals, DealStakeholders, Offerings, OfferingLinks, Activities, Tags, Taggings, Lists,
    ListMembers, CustomFieldDefinitions, CustomFieldValues, SavedViews, PendingActions, AuditEvents]

  /** Where the list has a scoped table. */
  function Place(table: Table): (i: nat)
    ensures i < 23
  {
    match table
    case Memberships => 0
    case McpClients => 1
    case WorkspaceCounters => 2
    case Companies => 3
    case People => 4
    case CompanyPeople => 5
    case Pipelines => 6
    case Stages => 7
    case Engagements => 8
    case Deals => 9
    case DealStakeholders => 10
    case Offerings => 11
    case OfferingLinks => 12
    case Activities => 13
    case Tags => 14
    case Taggings => 15
    case Lists => 16
    case ListMembers => 17
    case CustomFieldDefinitions => 18
    case CustomFieldValues => 19
    case SavedViews => 20
    case PendingActions => 21
    case AuditEvents => 22
    case _ => 0
  }

  lemma ListHasScoped(table: Table)
    requires Scoped(table)
    ensures WORKSPACE_SCOPED_TABLES[Place(table)] == table
  {
    var i := Place(table);
    if i < 6 {
      ListHasFirst(table);
    } else if i < 12 {
      ListHasSecond(table);
    } else if i < 18 {
      ListHasThird(table);
    } else {
      ListHasLast(table);
    }
  }

  lemma ListHasFirst(table: Table)
    requires Scoped(table) && Place(table) < 6
    ensures WORKSPACE_SCOPED_TABLES[Place(table)] == table
  {
  }

  lemma ListHasSecond(table: Table)
    requires Scoped(table) && 6 <= Place(table) < 12
    ensures WORKSPACE_SCOPED_TABLES[Place(table)] == table
  {
  }

  lemma ListHasThird(table: Table)
    requires Scoped(table) && 12 <= Place(table) < 18
    ensures WORKSPACE_SCOPED_TABLES[Place(table)] == table
  {
  }

  lemma ListHasLast(table: Table)
    requires Scoped(table) && 18 <= Place(table)
    ensures WORKSPACE_SCOPED_TABLES[Place(table)] == table
  {
  }

  lemma ListHasOnlyScoped(i: nat)
    requires i < |WORKSPACE_SCOPED_TABLES|
    ensures Scoped(WORKSPACE_SCOPED_TABLES[i])
  {
  }

  /** The list misses no table that has a workspace column, and names no other. */
  lemma ListIsComplete(table: Table)
    ensures table in WORKSPACE_SCOPED_TABLES <==> Scoped(table)
  {
    if Scoped(table) {
      ListHasScoped(table);
    } else if table in WORKSPACE_SCOPED_TABLES {
      var i :| 0 <= i < |WORKSPACE_SCOPED_TABLES| && WORKSPACE_SCOPED_TABLES[i] == table;
      ListHasOnlyScoped(i);
    }
  }

  // --- What has to go -------------------------------------------------------------

  predicate IsMembership(rows: Rows, k: (Table, Text), user: Text) {
    k in rows && k.0.Memberships? && rows[k].user == Some(user)
  }

  /** A member of the workspace who is a member of no other. */
  ghost predicate MemberOnly(rows: Rows, ws: Text, user: Text) {
    && (exists k :: IsMembership(rows, k, user) && rows[k].workspace == Some(ws))
    && (forall k :: IsMembership(rows, k, user) ==> rows[k].workspace == Some(ws))
  }

  ghost predicate Doomed(rows: Rows, ws: Text, k: (Table, Text))
    requires k in rows
  {
    || (Scoped(k.0) && rows[k].workspace == Some(ws))
    || k == (Workspaces, ws)
    || (k.0.Users? && MemberOnly(rows, ws, k.1))
    || (k.0.Sessions? && rows[k].user.Some? && MemberOnly(rows, ws, rows[k].user.value))
  }

  /** Exactly the doomed rows are gone, and no other row has changed. */
  ghost predicate DeletedExactly(rows: Rows, ws: Text, after: Rows) {
    && (forall k :: k in rows && !Doomed(rows, ws, k) ==> k in after && after[k] == rows[k])
    && (forall k :: k in after ==> k in rows && !Doomed(rows, ws, k))
  }

  /** The hosting tables follow: access and outbox rows go, the service audit forgets the workspace. */
  ghost predicate Forgotten(rows: Rows, ws: Text, after: Rows) {
    && (forall k :: k in after ==> k in rows)
    && (forall k :: k in rows ==>
          (k in after <==> !((k.0.Access? && k.1 == ws) || (k.0.Outbox? && rows[k].workspace == Some(ws)))))
    && (forall k :: k in after ==>
          after[k] == if k.0.ServiceAudit? && rows[k].workspace == Some(ws) then rows[k].(workspace := None)
            else rows[k])
  }

  // --- The deletion as it runs ----------------------------------------------------

  /** The rows left when the given tables have been emptied of the workspace. */
  function WithoutScoped(rows: Rows, tables: seq<Table>, ws: Text): Rows {
    map k | k in rows && !(k.0 in tables && rows[k].workspace == Some(ws)) :: rows[k]
  }

  function MembersOf(rows: Rows, ws: Text): set<Text> {
    set k | k in rows && k.0.Memberships? && rows[k].workspace == Some(ws) && rows[k].user.Some? :: rows[k].user.value
  }

  function AllMembers(rows: Rows): set<Text> {
    set k | k in rows && k.0.Memberships? && rows[k].user.Some? :: rows[k].user.value
  }

  /** Sessions of the users to drop, then the users. */
  function WithoutUsers(rows: Rows, gone: set<Text>): Rows {
    map k | k in rows && !(k.0.Sessions? && rows[k].user.Some? && rows[k].user.value in gone) &&
      !(k.0.Users? && k.1 in gone) :: rows[k]
  }

  /** The rows after the loop, the two deletes of member rows and that of the workspace itself. */
  function Swept(rows: Rows, ws: Text): Rows {
    var emptied := WithoutScoped(rows, WORKSPACE_SCOPED_TABLES, ws);
    WithoutUsers(emptied, MembersOf(rows, ws) - AllMembers(emptied)) - {(Workspaces, ws)}
  }

  class Database {
    var rows: Rows

    constructor ()
      ensures rows == map[]
    {
      rows := map[];
    }

    /** DELETE FROM table WHERE workspace_id = ws */
    method DeleteScoped(table: Table, ws: Text)
      modifies this
      ensures rows == WithoutScoped(old(rows), [table], ws)
    {
      rows := WithoutScoped(rows, [table], ws);
    }

    method EmptyScopedTables(ws: Text)
      modifies this
      ensures rows == WithoutScoped(old(rows), WORKSPACE_SCOPED_TABLES, ws)
    {
      for i := 0 to |WORKSPACE_SCOPED_TABLES|
        invariant rows == WithoutScoped(old(rows), WORKSPACE_SCOPED_TABLES[..i], ws)
      {
        DeleteScoped(WORKSPACE_SCOPED_TABLES[i], ws);
        assert WORKSPACE_SCOPED_TABLES[..i + 1] == WORKSPACE_SCOPED_TABLES[..i] + [WORKSPACE_SCOPED_TABLES[i]];
      }
      assert WORKSPACE_SCOPED_TABLES[..|WORKSPACE_SCOPED_TABLES|] == WORKSPACE_SCOPED_TABLES;
    }

    /** DELETE ... WHERE the user is one of these and appears in no membership any more. */
    method DropMembers(memberIds: set<Text>)
      modifies this
      ensures rows == WithoutUsers(old(rows), memberIds - AllMembers(old(rows)))
    {
      if memberIds != {} {
        var remaining := AllMembers(rows);
        rows := map k | k in rows &&
          !(k.0.Sessions? && rows[k].user.Some? && rows[k].user.value in memberIds &&
            rows[k].user.value !in remaining) :: rows[k];
        assert AllMembers(rows) == remaining by {
          forall k | k in old(rows) && k.0.Memberships? ensures k in rows {}
        }
        rows := map k | k in rows && !(k.0.Users? && k.1 in memberIds && k.1 !in remaining) :: rows[k];
      }
    }

    method DeleteWorkspace(ws: Text) returns (existed: bool)
      modifies this
      ensures existed == ((Workspaces, ws) in old(rows))
      ensures existed ==> rows == Swept(old(rows), ws) && DeletedExactly(old(rows), ws, rows)
      ensures !existed ==> rows == old(rows)
    {
      if (Workspaces, ws) !in rows { return false; }
      var memberIds := MembersOf(rows, ws);
      EmptyScopedTables(ws);
      DropMembers(memberIds);
      rows := rows - {(Workspaces, ws)};
      StepsAreExact(old(rows), ws);
      return true;
    }

    method ForgetWorkspace(ws: Text)
      modifies this
      ensures Forgotten(old(rows), ws, rows)
    {
      rows := rows - {(Access, ws)};
      DeleteScoped(Outbox, ws);
      rows := map k | k in rows ::
        if k.0.ServiceAudit? && rows[k].workspace == Some(ws) then rows[k].(workspace := None) else rows[k];
    }

    method DeletePermanently(ws: Text) returns (existed: bool)
      modifies this
      ensures existed == ((Workspaces, ws) in old(rows))
      ensures !existed ==> rows == old(rows)
      ensures existed ==> exists middle :: DeletedExactly(old(rows), ws, middle) && Forgotten(middle, ws, rows)
    {
      existed := DeleteWorkspace(ws);
      if existed { ForgetWorkspace(ws); }
    }
  }

  /** The members found before the loop who are found in no membership after it. */
  lemma MemberOnlyIs(rows: Rows, ws: Text, user: Text)
    ensures MemberOnly(rows, ws, user) <==>
      user in MembersOf(rows, ws) && user !in AllMembers(WithoutScoped(rows, WORKSPACE_SCOPED_TABLES, ws))
  {
    var after := WithoutScoped(rows, WORKSPACE_SCOPED_TABLES, ws);
    ListIsComplete(Memberships);
    if MemberOnly(rows, ws, user) {
      var k :| IsMembership(rows, k, user) && rows[k].workspace == Some(ws);
      assert rows[k].user.value in MembersOf(rows, ws);
      forall l | l in after && l.0.Memberships? ensures after[l].user != Some(user) {
        assert after[l].user == Some(user) ==> IsMembership(rows, l, user);
      }
    }
    if user in MembersOf(rows, ws) && user !in AllMembers(after) {
      var k :| k in rows && k.0.Memberships? && rows[k].workspace == Some(ws) && rows[k].user == Some(user);
      assert IsMembership(rows, k, user);
      forall l | IsMembership(rows, l, user) ensures rows[l].workspace == Some(ws) {
        assert rows[l].workspace != Some(ws) ==> l in after;
      }
    }
  }

  lemma StepsAreExact(rows: Rows, ws: Text)
    ensures DeletedExactly(rows, ws, Swept(rows, ws))
  {
    var after := Swept(rows, ws);
    forall k | k in rows ensures k in after <==> !Doomed(rows, ws, k) {
      ListIsComplete(k.0);
      MemberOnlyIs(rows, ws, k.1);
      if rows[k].user.Some? { MemberOnlyIs(rows, ws, rows[k].user.value); }
    }
  }

  // --- What a reader gets -----------------------------------------------------------

  ghost predicate HasMembership(rows: Rows, user: Text) { exists k :: IsMembership(rows, k, user) }

  /** The user can still be met: as a row, or through a session. */
  ghost predicate Met(rows: Rows, user: Text) {
    (Users, user) in rows || exists k :: k in rows && k.0.Sessions? && rows[k].user == Some(user)
  }

  /**
   After the sweep no table of the application mentions the workspace, and no former member is left without one:
   whoever was a member and can still be met is a member of a workspace that is still there.
   */
  lemma NothingIsLeft(rows: Rows, ws: Text)
    ensures var after := Swept(rows, ws);
      && (Workspaces, ws) !in after
      && (forall k :: k in after && Scoped(k.0) ==> after[k].workspace != Some(ws))
      && (forall m, user :: IsMembership(rows, m, user) && rows[m].workspace == Some(ws) && Met(after, user) ==>
            HasMembership(after, user))
  {
    var after := Swept(rows, ws);
    forall table: Table { ListIsComplete(table); }
    forall m, user | IsMembership(rows, m, user) && rows[m].workspace == Some(ws) && Met(after, user)
      ensures HasMembership(after, user)
    {
      StillMember(rows, ws, m, user);
    }
  }

  lemma StillMember(rows: Rows, ws: Text, m: (Table, Text), user: Text)
    requires IsMembership(rows, m, user) && rows[m].workspace == Some(ws) && Met(Swept(rows, ws), user)
    ensures HasMembership(Swept(rows, ws), user)
  {
    var emptied := WithoutScoped(rows, WORKSPACE_SCOPED_TABLES, ws);
    assert rows[m].user.value in MembersOf(rows, ws);
    assert user in AllMembers(emptied);
    var k :| k in emptied && k.0.Memberships? && emptied[k].user == Some(user);
    assert IsMembership(Swept(rows, ws), k, user);
  }

  /** The identity tables have no workspace column, and a control row has its workspace for a key. */
  predicate ColumnsAreFilled(rows: Rows) {
    forall k :: k in rows ==>
      && (k.0 in {Workspaces, Users, Sessions, AuthCodes, OpenauthKv} ==> rows[k].workspace == None)
      && (k.0 == Access ==> rows[k].workspace == Some(k.1))
  }

  /** After the whole deletion no row of any table names the workspace, in whatever column, nor is there its own. */
  lemma NothingNamesIt(rows: Rows, ws: Text, middle: Rows, after: Rows)
    requires ColumnsAreFilled(rows) && DeletedExactly(rows, ws, middle) && Forgotten(middle, ws, after)
    ensures (Workspaces, ws) !in after && forall k :: k in after ==> after[k].workspace != Some(ws)
  {
    forall k | k in after ensures after[k].workspace != Some(ws) && k != (Workspaces, ws) {
      assert k in middle && !Doomed(rows, ws, k);
    }
  }

  /** Every row of another workspace stays as it is, with the users and sessions of its members. */
  lemma OthersAreFramed(rows: Rows, ws: Text, after: Rows, other: Text)
    requires DeletedExactly(rows, ws, after) && other != ws
    ensures forall k :: k in rows && Scoped(k.0) && rows[k].workspace == Some(other) ==>
      k in after && after[k] == rows[k]
    ensures forall m, user :: IsMembership(rows, m, user) && rows[m].workspace == Some(other) ==>
      ((Users, user) in rows ==> (Users, user) in after && after[(Users, user)] == rows[(Users, user)]) &&
      (forall k :: k in rows && k.0.Sessions? && rows[k].user == Some(user) ==> k in after && after[k] == rows[k])
  {
    forall m, user | IsMembership(rows, m, user) &&
      rows[m].workspace == Some(other) ensures !MemberOnly(rows, ws, user) {
    }
    forall m, user | IsMembership(rows, m, user) && rows[m].workspace == Some(other)
      ensures ((Users, user) in rows ==> (Users, user) in after && after[(Users, user)] == rows[(Users, user)])
      ensures forall k :: k in rows && k.0.Sessions? && rows[k].user == Some(user) ==> k in after && after[k] == rows[k]
    {
      assert !MemberOnly(rows, ws, user);
      assert (Users, user) in rows ==> !Doomed(rows, ws, (Users, user));
      forall k | k in rows && k.0.Sessions? && rows[k].user == Some(user) ensures !Doomed(rows, ws, k) {
      }
    }
  }

  /** Setup and reset codes carry no workspace: deleting the workspace leaves every one of them behind. */
  lemma CodesSurvive(rows: Rows, ws: Text, after: Rows)
    requires DeletedExactly(rows, ws, after)
    ensures forall k: (Table, Text) :: k.0.AuthCodes? || k.0.OpenauthKv? ==>
      (k in after <==> k in rows) && (k in rows ==> after[k] == rows[k])
  {
    forall k | k in rows && (k.0.AuthCodes? || k.0.OpenauthKv?) ensures !Doomed(rows, ws, k) {
    }
  }
}
