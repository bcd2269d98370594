/**
 The record store of a workspace and the hard deletion of its records: each kind has its own list of link
 tables to clean and columns to null, and afterwards nothing refers to the missing record.
 */
module Records {
  import opened Wrappers
  import opened JsonText

  datatype Kind = Company | Person | Engagement | Deal | Offering | Activity

  /** The nullable columns that hold a record's id. */
  datatype Column = CompanyId | PersonId | PrimaryPersonId | EngagementId | DealId

  type Key = (Kind, Text)

  datatype Record = Record(workspace: Text, refs: map<Column, Text>)

  datatype Link =
    | CompanyPerson(workspace: Text, companyId: Text, personId: Text)
    | Stakeholder(workspace: Text, dealId: Text, personId: Text)
    | OfferingLink(workspace: Text, offeringId: Text, kind: Kind, id: Text)
    | Tagging(workspace: Text, tagId: Text, kind: Kind, id: Text)
    | FieldValue(workspace: Text, fieldId: Text, kind: Kind, id: Text)
    | ListMember(workspace: Text, listId: Text, kind: Kind, id: Text)

  /** All workspaces together; link rows by their row id. */
  datatype Db = Db(records: map<Key, Record>, links: map<Text, Link>)

  // --- What refers to what --------------------------------------------------------

  function Target(column: Column): Kind {
    match column
    case CompanyId => Company
    case PersonId => Person
    case PrimaryPersonId => Person
    case EngagementId => Engagement
    case DealId => Deal
  }

  /** The columns each table has. */
  predicate HasColumn(kind: Kind, column: Column) {
    match kind
    case Engagement => column.CompanyId? || column.PersonId? || column.DealId?
    case Deal => column.CompanyId? || column.PrimaryPersonId? || column.EngagementId?
    case Activity => column.CompanyId? || column.PersonId? || column.EngagementId? || column.DealId?
    case _ => false
  }

  /** The two ends of a link; the other end of a tagging, a field value or a list entry is no record. */
  function Ends(link: Link): set<Key> {
    match link
    case CompanyPerson(_, c, p) => {(Company, c), (Person, p)}
    case Stakeholder(_, d, p) => {(Deal, d), (Person, p)}
    case OfferingLink(_, o, kind, id) => {(Offering, o), (kind, id)}
    case Tagging(_, _, kind, id) => {(kind, id)}
    case FieldValue(_, _, kind, id) => {(kind, id)}
    case ListMember(_, _, kind, id) => {(kind, id)}
  }

  /** The kinds the inputs of the operations admit. */
  predicate Admitted(link: Link) {
    match link
    case OfferingLink(_, _, kind, _) => kind.Engagement? || kind.Deal?
    case Tagging(_, _, kind, _) => kind.Company? || kind.Person? || kind.Engagement? || kind.Deal?
    case FieldValue(_, _, kind, _) => !kind.Activity?
    case ListMember(_, _, kind, _) => kind.Company? || kind.Person? || kind.Engagement? || kind.Deal?
    case _ => true
  }

  predicate Holds(d: Db, ws: Text, key: Key) { key in d.records && d.records[key].workspace == ws }

  ghost predicate RecordSound(d: Db, key: Key)
    requires key in d.records
  {
    forall column :: column in d.records[key].refs ==>
      HasColumn(key.0, column) && Holds(d, d.records[key].workspace, (Target(column), d.records[key].refs[column]))
  }

  ghost predicate LinkSound(d: Db, link: Link) {
    Admitted(link) && forall end :: end in Ends(link) ==> Holds(d, link.workspace, end)
  }

  /** Every column and every link refers to a record that exists, in its own workspace. */
  ghost predicate Sound(d: Db) {
    && (forall key :: key in d.records ==> RecordSound(d, key))
    && (forall row :: row in d.links ==> LinkSound(d, d.links[row]))
  }

  // --- What a deletion should leave -----------------------------------------------

  function Unreferred(r: Record, gone: Key): Record {
    r.(refs := map column | column in r.refs && (Target(column), r.refs[column]) != gone :: r.refs[column])
  }

  /** Without the record: its links gone, the columns that named it nulled, everything else as it was. */
  function Removed(d: Db, gone: Key): Db {
    Db(map key | key in d.records && key != gone :: Unreferred(d.records[key], gone),
       map row | row in d.links && gone !in Ends(d.links[row]) :: d.links[row])
  }

  /** The whole-store rule survives a removal. */
  lemma RemovedStaysSound(d: Db, gone: Key)
    requires Sound(d)
    ensures Sound(Removed(d, gone))
    ensures gone !in Removed(d, gone).records
  {
    var after := Removed(d, gone);
    forall key | key in after.records ensures RecordSound(after, key) {
      assert RecordSound(d, key);
    }
    forall row | row in after.links ensures LinkSound(after, after.links[row]) {
      assert LinkSound(d, d.links[row]);
    }
  }

  /** Without a workspace's records and links, as its permanent deletion leaves the store. */
  function WithoutWorkspace(d: Db, ws: Text): Db {
    Db(map key | key in d.records && d.records[key].workspace != ws :: d.records[key],
       map row | row in d.links && d.links[row].workspace != ws :: d.links[row])
  }

  /** References stay inside a workspace, so the rest of the store keeps the rule without being touched. */
  lemma WithoutWorkspaceStaysSound(d: Db, ws: Text)
    requires Sound(d)
    ensures Sound(WithoutWorkspace(d, ws))
  {
    var after := WithoutWorkspace(d, ws);
    forall key | key in after.records ensures RecordSound(after, key) { assert RecordSound(d, key); }
    forall row | row in after.links ensures LinkSound(after, after.links[row]) { assert LinkSound(d, d.links[row]); }
  }

  // --- The statements of a deletion -----------------------------------------------

  /** One DELETE on a link table, by the column or entity type it compares the id with. */
  datatype Rule =
    | CompanyEnd | PersonEnd | StakeholderDeal | StakeholderPerson | OfferingEnd
    | Offered(kind: Kind) | Tagged(kind: Kind) | Valued(kind: Kind) | Listed(kind: Kind)

  /** Some of these statements hits the link. */
  predicate Struck(rules: set<Rule>, id: Text, link: Link) {
    match link
    case CompanyPerson(_, c, p) => (CompanyEnd in rules && c == id) || (PersonEnd in rules && p == id)
    case Stakeholder(_, d, p) => (StakeholderDeal in rules && d == id) || (StakeholderPerson in rules && p == id)
    case OfferingLink(_, o, kind, e) => (OfferingEnd in rules && o == id) || (Offered(kind) in rules && e == id)
    case Tagging(_, _, kind, e) => Tagged(kind) in rules && e == id
    case FieldValue(_, _, kind, e) => Valued(kind) in rules && e == id
    case ListMember(_, _, kind, e) => Listed(kind) in rules && e == id
  }

  function Unlinked(links: map<Text, Link>, ws: Text, rules: set<Rule>, id: Text): map<Text, Link> {
    map row | row in links && !(links[row].workspace == ws && Struck(rules, id, links[row])) :: links[row]
  }

  /** The columns nulled where they hold the id. */
  function Nulled(key: Key, r: Record, ws: Text, columns: set<(Kind, Column)>, id: Text): Record {
    if r.workspace != ws then r
    else r.(refs := map column | column in r.refs && !((key.0, column) in columns && r.refs[column] == id) ::
      r.refs[column])
  }

  function Cleared(records: map<Key, Record>, ws: Text, columns: set<(Kind, Column)>, id: Text): map<Key, Record> {
    map key | key in records :: Nulled(key, records[key], ws, columns, id)
  }

  function Dropped(records: map<Key, Record>, ws: Text, key: Key): map<Key, Record> {
    map k | k in records && !(k == key && records[k].workspace == ws) :: records[k]
  }

  lemma NulledMore(key: Key, r: Record, ws: Text, columns: set<(Kind, Column)>, more: (Kind, Column), id: Text)
    ensures Nulled(key, Nulled(key, r, ws, columns, id), ws, {more}, id) == Nulled(key, r, ws, columns + {more}, id)
    ensures Nulled(key, r, ws, {}, id) == r
  {
    assert Nulled(key, Nulled(key, r, ws, columns, id), ws, {more}, id).refs == Nulled(key, r, ws, columns + {more},
      id).refs;
    assert Nulled(key, r, ws, {}, id).refs == r.refs;
  }

  /** What each kind's deletion strikes and nulls. */
  function RulesOf(kind: Kind): set<Rule> {
    match kind
    case Company => {CompanyEnd, Tagged(Company), Valued(Company), Listed(Company)}
    case Person => {PersonEnd, Tagged(Person), Valued(Person), StakeholderPerson, Listed(Person)}
    case Engagement => {Tagged(Engagement), Valued(Engagement), Offered(Engagement), Listed(Engagement)}
    case Deal => {StakeholderDeal, Tagged(Deal), Valued(Deal), Offered(Deal), Listed(Deal)}
    case Offering => {OfferingEnd, Valued(Offering)}
    case Activity => {}
  }

  function ColumnsOf(kind: Kind): set<(Kind, Column)> {
    match kind
    case Company => {(Engagement, CompanyId), (Deal, CompanyId), (Activity, CompanyId)}
    case Person => {(Engagement, PersonId), (Deal, PrimaryPersonId), (Activity, PersonId)}
    case Engagement => {(Activity, EngagementId), (Deal, EngagementId)}
    case Deal => {(Activity, DealId), (Engagement, DealId)}
    case _ => {}
  }

  /** The statements of a kind find every admitted link of the record, and no other. */
  lemma RulesCover(kind: Kind, id: Text, link: Link)
    requires Admitted(link)
    ensures Struck(RulesOf(kind), id, link) <==> (kind, id) in Ends(link)
  {
    match kind
    case Company =>
    case Person =>
    case Engagement =>
    case Deal =>
    case Offering =>
    case Activity =>
  }

  /** And every column that can hold its id. */
  lemma ColumnsCover(kind: Kind, table: Kind, column: Column)
    requires HasColumn(table, column)
    ensures (table, column) in ColumnsOf(kind) <==> Target(column) == kind
  {
    match kind
    case Company =>
    case Person =>
    case Engagement =>
    case Deal =>
    case Offering =>
    case Activity =>
  }

  // --- The store as it is updated ---------------------------------------------------

  class RecordStore {
    const ws: Text
    var records: map<Key, Record>
    var links: map<Text, Link>

    constructor (ws: Text)
      ensures this.ws == ws && Contents() == Db(map[], map[])
    {
      this.ws := ws;
      records, links := map[], map[];
    }

    function Contents(): Db
      reads this
    {
      Db(records, links)
    }

    /** How far a deletion has come: which links have been struck and which columns nulled. */
    ghost predicate Midway(entry: Db, id: Text, rules: set<Rule>, columns: set<(Kind, Column)>)
      reads this
    {
      links == Unlinked(entry.links, ws, rules, id) && records == Cleared(entry.records, ws, columns, id)
    }

    /** DELETE FROM a link table WHERE workspace_id = ws AND its column = id */
    method DeleteLinks(rule: Rule, id: Text, ghost entry: Db, ghost rules: set<Rule>,
          ghost columns: set<(Kind, Column)>)
      returns (ghost struck: set<Rule>)
      requires Midway(entry, id, rules, columns)
      modifies this
      ensures struck == rules + {rule} && Midway(entry, id, struck, columns)
    {
      struck := rules + {rule};
      links := Unlinked(links, ws, {rule}, id);
    }

    /** UPDATE table SET column = NULL WHERE workspace_id = ws AND column = id */
    method ClearColumn(table: Kind, column: Column, id: Text, ghost entry: Db, ghost rules: set<Rule>,
          ghost columns: set<(Kind, Column)>)
      returns (ghost nulled: set<(Kind, Column)>)
      requires Midway(entry, id, rules, columns)
      modifies this
      ensures nulled == columns + {(table, column)} && Midway(entry, id, rules, nulled)
    {
      nulled := columns + {(table, column)};
      forall key | key in entry.records { NulledMore(key, entry.records[key], ws, columns, (table, column), id); }
      records := Cleared(records, ws, {(table, column)}, id);
    }

    /** The record itself, last. */
    method DeleteRecord(key: Key, ghost entry: Db)
      requires Sound(entry) && Midway(entry, key.1, RulesOf(key.0), ColumnsOf(key.0))
      modifies this
      ensures Contents() == if Holds(entry, ws, key) then Removed(entry, key) else entry
    {
      records := Dropped(records, ws, key);
      LinksAreRemoved(entry, ws, key);
      RecordsAreRemoved(entry, ws, key);
    }

    method HardDeleteCompany(id: Text)
      requires Sound(Contents())
      modifies this
      ensures Contents() == if Holds(old(Contents()), ws, (Company, id)) then Removed(old(Contents()), (Company, id))
        else old(Contents())
    {
      ghost var entry := Contents();
      NothingYet(entry, ws, id);
      ghost var rules: set<Rule>, columns: set<(Kind, Column)> := {}, {};
      rules := DeleteLinks(CompanyEnd, id, entry, rules, columns);
      rules := DeleteLinks(Tagged(Company), id, entry, rules, columns);
      rules := DeleteLinks(Valued(Company), id, entry, rules, columns);
      columns := ClearColumn(Engagement, CompanyId, id, entry, rules, columns);
      columns := ClearColumn(Deal, CompanyId, id, entry, rules, columns);
      columns := ClearColumn(Activity, CompanyId, id, entry, rules, columns);
      rules := DeleteLinks(Listed(Company), id, entry, rules, columns);
      assert rules == RulesOf(Company) && columns == ColumnsOf(Company);
      DeleteRecord((Company, id), entry);
    }

    method HardDeletePerson(id: Text)
      requires Sound(Contents())
      modifies this
      ensures Contents() == if Holds(old(Contents()), ws, (Person, id)) then Removed(old(Contents()), (Person, id))
        else old(Contents())
    {
      ghost var entry := Contents();
      NothingYet(entry, ws, id);
      ghost var rules: set<Rule>, columns: set<(Kind, Column)> := {}, {};
      rules := DeleteLinks(PersonEnd, id, entry, rules, columns);
      rules := DeleteLinks(Tagged(Person), id, entry, rules, columns);
      rules := DeleteLinks(Valued(Person), id, entry, rules, columns);
      rules := DeleteLinks(StakeholderPerson, id, entry, rules, columns);
      columns := ClearColumn(Engagement, PersonId, id, entry, rules, columns);
      columns := ClearColumn(Deal, PrimaryPersonId, id, entry, rules, columns);
      columns := ClearColumn(Activity, PersonId, id, entry, rules, columns);
      rules := DeleteLinks(Listed(Person), id, entry, rules, columns);
      assert rules == RulesOf(Person) && columns == ColumnsOf(Person);
      DeleteRecord((Person, id), entry);
    }

    method HardDeleteEngagement(id: Text)
      requires Sound(Contents())
      modifies this
      ensures Contents() == if Holds(old(Contents()), ws, (Engagement, id))
        then Removed(old(Contents()), (Engagement, id)) else old(Contents())
    {
      ghost var entry := Contents();
      NothingYet(entry, ws, id);
      ghost var rules: set<Rule>, columns: set<(Kind, Column)> := {}, {};
      rules := DeleteLinks(Tagged(Engagement), id, entry, rules, columns);
      rules := DeleteLinks(Valued(Engagement), id, entry, rules, columns);
      rules := DeleteLinks(Offered(Engagement), id, entry, rules, columns);
      rules := DeleteLinks(Listed(Engagement), id, entry, rules, columns);
      columns := ClearColumn(Activity, EngagementId, id, entry, rules, columns);
      columns := ClearColumn(Deal, EngagementId, id, entry, rules, columns);
      assert rules == RulesOf(Engagement) && columns == ColumnsOf(Engagement);
      DeleteRecord((Engagement, id), entry);
    }

    method HardDeleteDeal(id: Text)
      requires Sound(Contents())
      modifies this
      ensures Contents() == if Holds(old(Contents()), ws, (Deal, id)) then Removed(old(Contents()), (Deal, id))
        else old(Contents())
    {
      ghost var entry := Contents();
      NothingYet(entry, ws, id);
      ghost var rules: set<Rule>, columns: set<(Kind, Column)> := {}, {};
      rules := DeleteLinks(StakeholderDeal, id, entry, rules, columns);
      rules := DeleteLinks(Tagged(Deal), id, entry, rules, columns);
      rules := DeleteLinks(Valued(Deal), id, entry, rules, columns);
      rules := DeleteLinks(Offered(Deal), id, entry, rules, columns);
      rules := DeleteLinks(Listed(Deal), id, entry, rules, columns);
      columns := ClearColumn(Activity, DealId, id, entry, rules, columns);
      columns := ClearColumn(Engagement, DealId, id, entry, rules, columns);
      assert rules == RulesOf(Deal) && columns == ColumnsOf(Deal);
      DeleteRecord((Deal, id), entry);
    }

    method HardDeleteOffering(id: Text)
      requires Sound(Contents())
      modifies this
      ensures Contents() == if Holds(old(Contents()), ws, (Offering, id)) then Removed(old(Contents()), (Offering, id))
        else old(Contents())
    {
      ghost var entry := Contents();
      NothingYet(entry, ws, id);
      ghost var rules: set<Rule>, columns: set<(Kind, Column)> := {}, {};
      rules := DeleteLinks(OfferingEnd, id, entry, rules, columns);
      rules := DeleteLinks(Valued(Offering), id, entry, rules, columns);
      assert rules == RulesOf(Offering) && columns == ColumnsOf(Offering);
      DeleteRecord((Offering, id), entry);
    }

    method HardDeleteActivity(id: Text)
      requires Sound(Contents())
      modifies this
      ensures Contents() == if Holds(old(Contents()), ws, (Activity, id)) then Removed(old(Contents()), (Activity, id))
        else old(Contents())
    {
      NothingYet(Contents(), ws, id);
      DeleteRecord((Activity, id), Contents());
    }
  }

  lemma NothingYet(d: Db, ws: Text, id: Text)
    ensures Unlinked(d.links, ws, {}, id) == d.links && Cleared(d.records, ws, {}, id) == d.records
  {
    forall key | key in d.records { NulledMore(key, d.records[key], ws, {}, (Deal, DealId), id); }
  }

  /** Striking the workspace's links by the kind's rules is what a removal does to links. */
  lemma LinksAreRemoved(d: Db, ws: Text, gone: Key)
    requires Sound(d)
    ensures Unlinked(d.links, ws, RulesOf(gone.0), gone.1) == if Holds(d, ws, gone) then Removed(d, gone).links
      else d.links
  {
    forall row | row in d.links
      ensures Struck(RulesOf(gone.0), gone.1, d.links[row]) <==> gone in Ends(d.links[row])
      ensures gone in Ends(d.links[row]) ==> Holds(d, d.links[row].workspace, gone)
    {
      assert LinkSound(d, d.links[row]);
      RulesCover(gone.0, gone.1, d.links[row]);
    }
  }

  lemma NulledIsUnreferred(d: Db, ws: Text, gone: Key, key: Key)
    requires Sound(d) && key in d.records
    ensures Nulled(key, d.records[key], ws, ColumnsOf(gone.0), gone.1) ==
      if Holds(d, ws, gone) then Unreferred(d.records[key], gone) else d.records[key]
  {
    var r := d.records[key];
    assert RecordSound(d, key);
    forall column | column in r.refs ensures (key.0, column) in ColumnsOf(gone.0) <==> Target(column) == gone.0 {
      ColumnsCover(gone.0, key.0, column);
    }
    assert Nulled(key, r, ws, ColumnsOf(gone.0), gone.1).refs == if Holds(d, ws, gone) then Unreferred(r, gone).refs
      else r.refs;
  }

  /** Nulling the workspace's columns and dropping the record is what a removal does to records. */
  lemma RecordsAreRemoved(d: Db, ws: Text, gone: Key)
    requires Sound(d)
    ensures Dropped(Cleared(d.records, ws, ColumnsOf(gone.0), gone.1), ws, gone) ==
      if Holds(d, ws, gone) then Removed(d, gone).records else d.records
  {
    forall key | key in d.records { NulledIsUnreferred(d, ws, gone, key); }
  }
}
