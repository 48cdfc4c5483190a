/** The three person tables — architect, contractor and customer — which
    the program handles with three copies of one class. Each keeps six text
    fields under a database-assigned id; the operations are insert, update
    (overwriting all six fields), delete and search by id, with `0` as the
    way back to the menu wherever an id is asked for. */
module People {
  import opened Wrappers
  import opened Text
  import opened Sql
  import Store
  import Prompt

  datatype Person = Person(
    firstName: string,
    lastName: string,
    phoneNumber: string,
    email: string,
    address: string,
    postCode: string)

  /** The tables holding people; the names are those the SQL uses. */
  datatype Table = Architect | Contractor | Customer

  function TableName(t: Table): string {
    match t
    case Architect => "architect"
    case Contractor => "contractor"
    case Customer => "customer"
  }

  /** Each table has its own name. */
  lemma TableNameInjective(a: Table, b: Table)
    ensures TableName(a) == TableName(b) <==> a == b
  {
  }

  type People = Store.Store<Person>

  /** The columns of a person table, in the order the statements list them. */
  const Columns: seq<string> :=
    ["first_name", "last_name", "phone_number", "email", "address", "post_code"]

  /** The column a field is stored in, by column name. */
  function Field(p: Person, column: string): Option<string> {
    if column == "first_name" then Some(p.firstName)
    else if column == "last_name" then Some(p.lastName)
    else if column == "phone_number" then Some(p.phoneNumber)
    else if column == "email" then Some(p.email)
    else if column == "address" then Some(p.address)
    else if column == "post_code" then Some(p.postCode)
    else None
  }

  /** The six answers to the detail prompts, in the order they are asked:
      first name, last name, telephone, email, home address, post code. Any
      text is taken, the empty line included. */
  function Gather(answers: seq<string>): (p: Person)
    requires |answers| == 6
    ensures Field(p, "first_name") == Some(answers[0])
    ensures Field(p, "post_code") == Some(answers[5])
  {
    Person(answers[0], answers[1], answers[2], answers[3], answers[4], answers[5])
  }

  /** The values bound to parameters 1..6 of the insert and update
      statements. */
  function Params(p: Person): (r: seq<string>)
    ensures |r| == |Columns|
  {
    [p.firstName, p.lastName, p.phoneNumber, p.email, p.address, p.postCode]
  }

  /** Parameter i carries the field stored in column i. */
  lemma ParamsBindColumns(p: Person)
    ensures forall i | 0 <= i < |Columns| :: Field(p, Columns[i]) == Some(Params(p)[i])
  {
  }

  /** The answers reach the parameters unchanged and in the order given, and
      the parameters determine the person. */
  lemma GatherParamsRoundTrip(answers: seq<string>, p: Person)
    requires |answers| == 6
    ensures Params(Gather(answers)) == answers
    ensures Gather(Params(p)) == p
  {
  }

  /** The statements, per table; the key column is `id`. */
  function InsertSql(t: Table): string {
    InsertText(TableName(t), Columns)
  }

  function UpdateSql(t: Table): string {
    UpdateText(TableName(t), Columns, "id")
  }

  function DeleteSql(t: Table): string {
    DeleteText(TableName(t), "id")
  }

  function SelectSql(t: Table): string {
    SelectText(TableName(t), "id")
  }

  lemma ColumnsAreNames()
    ensures forall i | 0 <= i < |Columns| :: IsName(Columns[i])
  {
    assert IsName("first_name") && IsName("last_name") && IsName("phone_number");
    assert IsName("email") && IsName("address") && IsName("post_code");
  }

  /** Every statement has one marker per value bound to it: the six fields
      for the insert, the six fields and then the id for the update, the id
      alone for the delete and the search. */
  lemma StatementMarkers(t: Table, p: Person, id: int)
    ensures CountChar(InsertSql(t), Marker) == |Params(p)|
    ensures CountChar(UpdateSql(t), Marker) == |Params(p) + [IntToString(id)]|
    ensures CountChar(DeleteSql(t), Marker) == |[IntToString(id)]|
    ensures CountChar(SelectSql(t), Marker) == |[IntToString(id)]|
  {
    ColumnsAreNames();
    assert IsName(TableName(t));
    InsertMarkers(TableName(t), Columns);
    UpdateMarkers(TableName(t), Columns, "id");
    KeyedMarkers(TableName(t), "id");
  }

  /** One answer to "Enter ... ID (or 0 to return to the menu)". */
  datatype Choice = Back | Row(id: int)

  /** 0 goes back to the menu, an id in the table is taken, and any other
      number is answered with "ID not found. Try again." (`None`). */
  function ChooseId(s: People, id: int): (r: Option<Choice>)
    ensures r == Some(Back) <==> id == 0
    ensures r.None? <==> id != 0 && !Store.HasKey(s.rows, id)
    ensures r.Some? && r.value.Row? ==> r.value.id == id
  {
    if id == 0 then Some(Back)
    else if Store.HasKey(s.rows, id) then Some(Row(id))
    else None
  }

  /** ids[i] is the answer that ends the id prompt: every earlier one was
      re-prompted. */
  predicate Decides(s: People, ids: seq<int>, i: int) {
    0 <= i < |ids| && ChooseId(s, ids[i]).Some?
    && forall j | 0 <= j < i :: ChooseId(s, ids[j]).None?
  }

  /** UPDATE ... SET (all six columns) WHERE id = ?. */
  function Overwrite(s: People, id: int, p: Person): (r: People)
    requires Store.Valid(s)
    ensures Store.Valid(r)
    ensures Store.HasKey(s.rows, id) ==> Store.Lookup(r.rows, id) == Some(p)
    ensures !Store.HasKey(s.rows, id) ==> r.rows == s.rows
    ensures forall k | k != id :: Store.Lookup(r.rows, k) == Store.Lookup(s.rows, k)
  {
    var r := Store.Update(s, id, _ => p);
    assert !Store.HasKey(s.rows, id) ==> r.rows == s.rows by {
      if !Store.HasKey(s.rows, id) {
        assert forall i | 0 <= i < |s.rows| :: s.rows[i].0 != id;
      }
    }
    r
  }

  /** addNewArchitect and its siblings: the gathered person is stored under
      a fresh id. */
  function Add(s: People, p: Person): (r: (People, int))
    requires Store.Valid(s)
    ensures Store.Valid(r.0) && !Store.HasKey(s.rows, r.1)
    ensures Store.Lookup(r.0.rows, r.1) == Some(p)
    ensures forall k | k != r.1 :: Store.Lookup(r.0.rows, k) == Store.Lookup(s.rows, k)
  {
    Store.Insert(s, p)
  }

  /** updateArchitect and its siblings over the ids typed at the prompt and
      the details typed after the accepted one: the table changes only when
      an existing id is given before any 0, and then only in that row. */
  method UpdatePerson(s: People, ids: seq<int>, details: Person) returns (r: People)
    requires Store.Valid(s)
    ensures Store.Valid(r)
    ensures forall i | Decides(s, ids, i) :: r == (if ids[i] == 0 then s else Overwrite(s, ids[i], details))
    ensures (forall i | 0 <= i < |ids| :: ChooseId(s, ids[i]).None?) ==> r == s
  {
    var c, used := Prompt.ReadUntil(ids, id => ChooseId(s, id));
    if c == Some(Back) || c.None? {
      r := s;
    } else {
      r := Overwrite(s, c.value.id, details);
    }
    DecidesUnique(s, ids, c, used);
  }

  /** deleteArchitect and its siblings: the row goes only when an existing
      id is given before any 0; every other row stays. */
  method DeletePerson(s: People, ids: seq<int>) returns (r: People)
    requires Store.Valid(s)
    ensures Store.Valid(r)
    ensures forall i | Decides(s, ids, i) :: r == (if ids[i] == 0 then s else Store.Delete(s, ids[i]))
    ensures (forall i | 0 <= i < |ids| :: ChooseId(s, ids[i]).None?) ==> r == s
  {
    var c, used := Prompt.ReadUntil(ids, id => ChooseId(s, id));
    if c == Some(Back) || c.None? {
      r := s;
    } else {
      r := Store.Delete(s, c.value.id);
    }
    DecidesUnique(s, ids, c, used);
  }

  /** What the prompt loop returned is the answer that decides it. */
  lemma DecidesUnique(s: People, ids: seq<int>, c: Option<Choice>, used: nat)
    requires used <= |ids|
    requires c.Some? ==> 1 <= used && ChooseId(s, ids[used - 1]) == c
    requires forall j | 0 <= j < |ids| && j < used - 1 :: ChooseId(s, ids[j]).None?
    requires c.None? ==> forall j | 0 <= j < |ids| :: ChooseId(s, ids[j]).None?
    ensures forall i | Decides(s, ids, i) :: c.Some? && i == used - 1 && c.value == (if ids[i] == 0 then Back else Row(ids[i]))
  {
    if c.Some? {
      assert ChooseId(s, ids[used - 1]).Some?;
    }
  }


  /** What searchArchitectById and its siblings show. */
  datatype Shown = NotFound | Found(rows: seq<(int, Person)>)

  function SearchById(s: People, id: int): (r: Shown)
    requires Store.Valid(s)
    ensures r == NotFound <==> !Store.HasKey(s.rows, id)
    ensures r.Found? ==> r.rows == [(id, Store.Lookup(s.rows, id).value)]
  {
    var rows := Store.SelectById(s, id);
    if |rows| == 0 then NotFound
    else
      Store.LookupFindsRow(s.rows, IndexOfRow(s.rows, rows[0]));
      Found(rows)
  }

  /** `searchArchitectById` and its siblings take the id as typed and bind
      it as a string against the integer key; text that is not a number
      finds nobody. */
  function SearchByText(s: People, text: string): (r: Shown)
    requires Store.Valid(s)
    ensures r == NotFound <==> ParseInt(text).None? || !Store.HasKey(s.rows, ParseInt(text).value)
    ensures r.Found? ==> r.rows == [(ParseInt(text).value, Store.Lookup(s.rows, ParseInt(text).value).value)]
  {
    match ParseInt(text)
    case None => NotFound
    case Some(id) => SearchById(s, id)
  }

  /** `listAllArchitects` and its siblings: every row in key order, or the
      "No architects found." message for an empty table. */
  function ListAll(s: People): (r: Shown)
    requires Store.Valid(s)
    ensures r == NotFound <==> |s.rows| == 0
    ensures r.Found? ==> Store.Ascending(r.rows) && forall k :: Store.Lookup(r.rows, k) == Store.Lookup(s.rows, k)
  {
    if |s.rows| == 0 then NotFound else Found(s.rows)
  }

  /** The position of a row known to be in the list. */
  function IndexOfRow(rows: seq<(int, Person)>, x: (int, Person)): (i: int)
    requires x in rows
    ensures 0 <= i < |rows| && rows[i] == x
  {
    if rows[0] == x then 0 else 1 + IndexOfRow(rows[1..], x)
  }
}
