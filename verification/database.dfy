/** The whole database: the three person tables and `projects`. Statements
    on one table leave the other tables as they are; in particular nothing
    cascades from a person table into `projects`. */
module Database {
  import opened Wrappers
  import Store
  import opened People
  import opened Projects

  datatype Db = Db(architects: People, contractors: People, customers: People, projects: Projects)

  predicate Valid(db: Db) {
    Store.Valid(db.architects) && Store.Valid(db.contractors)
    && Store.Valid(db.customers) && Store.Valid(db.projects)
  }

  function Empty(): (db: Db)
    ensures Valid(db)
  {
    Db(Store.Empty(), Store.Empty(), Store.Empty(), Store.Empty())
  }

  /** The person table named by `t`. */
  function PeopleOf(db: Db, t: Table): People {
    match t
    case Architect => db.architects
    case Contractor => db.contractors
    case Customer => db.customers
  }

  /** The database with person table `t` replaced and every other table kept. */
  function WithPeople(db: Db, t: Table, s: People): (r: Db)
    ensures PeopleOf(r, t) == s
    ensures forall u | u != t :: PeopleOf(r, u) == PeopleOf(db, u)
    ensures r.projects == db.projects
  {
    match t
    case Architect => db.(architects := s)
    case Contractor => db.(contractors := s)
    case Customer => db.(customers := s)
  }

  /** `idExists(conn, id, tableName)`: `SELECT 1 FROM <table> WHERE id = ?`
      finds a row. */
  predicate IdExists(db: Db, t: Table, id: int) {
    Store.HasKey(PeopleOf(db, t).rows, id)
  }

  /** No table hands out id 0 or a negative id, so neither the exit
      sentinel 0 nor the "unchanged" sentinel -1 is ever an existing id. */
  lemma SentinelsNeverExist(db: Db, t: Table)
    requires Valid(db)
    ensures !IdExists(db, t, 0) && !IdExists(db, t, Unchanged)
    ensures !Store.HasKey(db.projects.rows, 0)
  {
    var s := PeopleOf(db, t);
    assert forall i | 0 <= i < |s.rows| :: s.rows[i].0 >= 1;
    assert forall i | 0 <= i < |db.projects.rows| :: db.projects.rows[i].0 >= 1;
  }

  /** addNewArchitect / addNewContractor / addNewCustomer. */
  function AddPerson(db: Db, t: Table, p: Person): (r: (Db, int))
    requires Valid(db)
    ensures Valid(r.0) && !IdExists(db, t, r.1) && IdExists(r.0, t, r.1)
    ensures Store.Lookup(PeopleOf(r.0, t).rows, r.1) == Some(p)
    ensures forall k | k != r.1 :: Store.Lookup(PeopleOf(r.0, t).rows, k) == Store.Lookup(PeopleOf(db, t).rows, k)
    ensures forall u | u != t :: PeopleOf(r.0, u) == PeopleOf(db, u)
    ensures r.0.projects == db.projects
  {
    var (s, id) := Add(PeopleOf(db, t), p);
    (WithPeople(db, t, s), id)
  }

  /** updateArchitect and its siblings on the whole database: only table
      `t` can change, as `People.UpdatePerson` says. */
  method UpdatePersonIn(db: Db, t: Table, ids: seq<int>, details: Person) returns (r: Db)
    requires Valid(db)
    ensures Valid(r)
    ensures forall i | Decides(PeopleOf(db, t), ids, i) ::
      PeopleOf(r, t) == (if ids[i] == 0 then PeopleOf(db, t) else Overwrite(PeopleOf(db, t), ids[i], details))
    ensures (forall i | 0 <= i < |ids| :: ChooseId(PeopleOf(db, t), ids[i]).None?) ==> r == db
    ensures forall u | u != t :: PeopleOf(r, u) == PeopleOf(db, u)
    ensures r.projects == db.projects
  {
    var s := UpdatePerson(PeopleOf(db, t), ids, details);
    r := WithPeople(db, t, s);
    if forall i | 0 <= i < |ids| :: ChooseId(PeopleOf(db, t), ids[i]).None? {
      WithSameTable(db, t);
    }
  }

  /** deleteArchitect and its siblings on the whole database. */
  method DeletePersonIn(db: Db, t: Table, ids: seq<int>) returns (r: Db)
    requires Valid(db)
    ensures Valid(r)
    ensures forall i | Decides(PeopleOf(db, t), ids, i) ::
      PeopleOf(r, t) == (if ids[i] == 0 then PeopleOf(db, t) else Store.Delete(PeopleOf(db, t), ids[i]))
    ensures (forall i | 0 <= i < |ids| :: ChooseId(PeopleOf(db, t), ids[i]).None?) ==> r == db
    ensures forall u | u != t :: PeopleOf(r, u) == PeopleOf(db, u)
    ensures r.projects == db.projects
  {
    var s := DeletePerson(PeopleOf(db, t), ids);
    r := WithPeople(db, t, s);
    if forall i | 0 <= i < |ids| :: ChooseId(PeopleOf(db, t), ids[i]).None? {
      WithSameTable(db, t);
    }
  }

  /** Putting a table back unchanged gives the same database. */
  lemma WithSameTable(db: Db, t: Table)
    ensures WithPeople(db, t, PeopleOf(db, t)) == db
  {
  }

  /** The foreign key a project holds for person table `t`. */
  function Reference(p: Project, t: Table): int {
    match t
    case Architect => p.architectId
    case Contractor => p.contractorId
    case Customer => p.customerId
  }

  /** Every person the project names exists. */
  predicate Referenced(db: Db, p: Project) {
    IdExists(db, Architect, p.architectId) && IdExists(db, Contractor, p.contractorId)
    && IdExists(db, Customer, p.customerId)
  }

  /** Every stored project names existing people: what the foreign-key
      prompts check when a project is added or changed. */
  ghost predicate Integrity(db: Db) {
    forall k | Store.HasKey(db.projects.rows, k) :: Referenced(db, Store.Lookup(db.projects.rows, k).value)
  }

  /** Integrity survives a change to the projects table that touches one
      project number, provided the project stored there, if any, names
      existing people. */
  lemma IntegrityAfterOneChange(db: Db, r: Db, number: int)
    requires Integrity(db)
    requires r.architects == db.architects && r.contractors == db.contractors && r.customers == db.customers
    requires forall k | k != number :: Store.Lookup(r.projects.rows, k) == Store.Lookup(db.projects.rows, k)
    requires Store.HasKey(r.projects.rows, number) ==> Referenced(r, Store.Lookup(r.projects.rows, number).value)
    ensures Integrity(r)
  {
    forall k | Store.HasKey(r.projects.rows, k) ensures Referenced(r, Store.Lookup(r.projects.rows, k).value) {
      if k != number {
        assert Store.Lookup(r.projects.rows, k) == Store.Lookup(db.projects.rows, k);
      }
    }
  }

  /** Deleting a person leaves every project that named them pointing at an
      id that no longer exists. */
  lemma DeleteLeavesDangling(db: Db, t: Table, id: int, number: int)
    requires Valid(db) && IdExists(db, t, id)
    requires Store.HasKey(db.projects.rows, number)
    requires Reference(Store.Lookup(db.projects.rows, number).value, t) == id
    ensures var r := WithPeople(db, t, Store.Delete(PeopleOf(db, t), id));
      && !IdExists(r, t, id)
      && Store.Lookup(r.projects.rows, number) == Store.Lookup(db.projects.rows, number)
      && !Integrity(r)
  {
    var r := WithPeople(db, t, Store.Delete(PeopleOf(db, t), id));
    assert !Referenced(r, Store.Lookup(r.projects.rows, number).value) by {
      assert !IdExists(r, t, Reference(Store.Lookup(r.projects.rows, number).value, t));
    }
  }
}
