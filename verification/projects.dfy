/** The `projects` table: its twelve columns, the INSERT that adds a row and
    the partial UPDATE that `updateProjectDetails` assembles from whichever
    fields the user supplied. */
module Projects {
  import opened Wrappers
  import opened Text
  import opened Sql
  import opened Dates
  import opened Money
  import Store

  /** One row of `projects`, without its key `project_number`. */
  datatype Project = Project(
    name: string,
    buildingType: string,
    address: string,
    erfNumber: string,
    totalFee: Decimal,
    paidToDate: Decimal,
    deadline: Date,
    completion: Option<Date>,
    finalised: bool,
    architectId: int,
    contractorId: int,
    customerId: int)

  type Projects = Store.Store<Project>

  /** The columns besides the key, in the order every statement lists them. */
  datatype Column =
    | ProjectName | BuildingType | ProjectAddress | ErfNumber
    | TotalFee | PaidToDate | DeadlineDate | CompletionDate
    | Finalised | ArchitectId | ContractorId | CustomerId

  const AllColumns: seq<Column> := [
    ProjectName, BuildingType, ProjectAddress, ErfNumber,
    TotalFee, PaidToDate, DeadlineDate, CompletionDate,
    Finalised, ArchitectId, ContractorId, CustomerId]

  /** Where a column stands in `AllColumns`. */
  function Position(c: Column): (n: nat)
    ensures n < |AllColumns| && AllColumns[n] == c
  {
    match c
    case ProjectName => 0
    case BuildingType => 1
    case ProjectAddress => 2
    case ErfNumber => 3
    case TotalFee => 4
    case PaidToDate => 5
    case DeadlineDate => 6
    case CompletionDate => 7
    case Finalised => 8
    case ArchitectId => 9
    case ContractorId => 10
    case CustomerId => 11
  }

  /** Every column appears in `AllColumns` exactly once. */
  lemma AllColumnsOnce()
    ensures forall i | 0 <= i < |AllColumns| :: Position(AllColumns[i]) == i
  {
  }

  function ColumnName(c: Column): string {
    match c
    case ProjectName => "project_name"
    case BuildingType => "building_type"
    case ProjectAddress => "project_address"
    case ErfNumber => "erf_number"
    case TotalFee => "total_fee_gbp"
    case PaidToDate => "paid_to_date_gbp"
    case DeadlineDate => "deadline_date"
    case CompletionDate => "completion_date"
    case Finalised => "finalised"
    case ArchitectId => "architect_id"
    case ContractorId => "contractor_id"
    case CustomerId => "customer_id"
  }

  /** Column names hold no parameter marker. */
  lemma ColumnNameIsName(c: Column)
    ensures IsName(ColumnName(c))
  {
  }

  function Names(cols: seq<Column>): (r: seq<string>)
    ensures |r| == |cols|
    ensures forall i | 0 <= i < |cols| :: r[i] == ColumnName(cols[i])
  {
    seq(|cols|, i requires 0 <= i < |cols| => ColumnName(cols[i]))
  }

  /** A value bound to a statement parameter; `Null` is SQL NULL. */
  datatype Value = Str(s: string) | Num(d: Decimal) | Day(date: Date) | Null | Bool(b: bool) | Int(i: int)

  /** The column's value in a row. */
  function Get(p: Project, c: Column): Value {
    match c
    case ProjectName => Str(p.name)
    case BuildingType => Str(p.buildingType)
    case ProjectAddress => Str(p.address)
    case ErfNumber => Str(p.erfNumber)
    case TotalFee => Num(p.totalFee)
    case PaidToDate => Num(p.paidToDate)
    case DeadlineDate => Day(p.deadline)
    case CompletionDate => if p.completion.Some? then Day(p.completion.value) else Null
    case Finalised => Bool(p.finalised)
    case ArchitectId => Int(p.architectId)
    case ContractorId => Int(p.contractorId)
    case CustomerId => Int(p.customerId)
  }

  /** The values a column can hold: only `completion_date` is nullable. */
  predicate Fits(c: Column, v: Value) {
    match c
    case ProjectName | BuildingType | ProjectAddress | ErfNumber => v.Str?
    case TotalFee | PaidToDate => v.Num?
    case DeadlineDate => v.Day?
    case CompletionDate => v.Day? || v.Null?
    case Finalised => v.Bool?
    case ArchitectId | ContractorId | CustomerId => v.Int?
  }

  /** Every stored value fits its column, and a row is fixed by its values. */
  lemma GetFitsAndDetermines(p: Project, q: Project)
    ensures forall c :: Fits(c, Get(p, c))
    ensures (forall c :: Get(p, c) == Get(q, c)) ==> p == q
  {
    if forall c :: Get(p, c) == Get(q, c) {
      assert Get(p, ProjectName) == Get(q, ProjectName) && Get(p, BuildingType) == Get(q, BuildingType);
      assert Get(p, ProjectAddress) == Get(q, ProjectAddress) && Get(p, ErfNumber) == Get(q, ErfNumber);
      assert Get(p, TotalFee) == Get(q, TotalFee) && Get(p, PaidToDate) == Get(q, PaidToDate);
      assert Get(p, DeadlineDate) == Get(q, DeadlineDate) && Get(p, CompletionDate) == Get(q, CompletionDate);
      assert Get(p, Finalised) == Get(q, Finalised) && Get(p, ArchitectId) == Get(q, ArchitectId);
      assert Get(p, ContractorId) == Get(q, ContractorId) && Get(p, CustomerId) == Get(q, CustomerId);
      assert p.completion == q.completion;
    }
  }

  /** `c = v` applied to one row. */
  function Set(p: Project, c: Column, v: Value): (r: Project)
    requires Fits(c, v)
    ensures Get(r, c) == v
    ensures forall d | d != c :: Get(r, d) == Get(p, d)
  {
    match c
    case ProjectName => p.(name := v.s)
    case BuildingType => p.(buildingType := v.s)
    case ProjectAddress => p.(address := v.s)
    case ErfNumber => p.(erfNumber := v.s)
    case TotalFee => p.(totalFee := v.d)
    case PaidToDate => p.(paidToDate := v.d)
    case DeadlineDate => p.(deadline := v.date)
    case CompletionDate => p.(completion := if v.Day? then Some(v.date) else None)
    case Finalised => p.(finalised := v.b)
    case ArchitectId => p.(architectId := v.i)
    case ContractorId => p.(contractorId := v.i)
    case CustomerId => p.(customerId := v.i)
  }

  /** `SET c1 = v1, c2 = v2, ...` applied to one row, left to right. */
  function Assign(p: Project, cols: seq<Column>, vals: seq<Value>): (r: Project)
    requires |cols| == |vals|
    requires forall i | 0 <= i < |cols| :: Fits(cols[i], vals[i])
    decreases |cols|
  {
    if |cols| == 0 then p else Assign(Set(p, cols[0], vals[0]), cols[1..], vals[1..])
  }

  /** Assigning distinct columns gives each its value and leaves the rest. */
  lemma {:induction false} AssignEffect(p: Project, cols: seq<Column>, vals: seq<Value>, c: Column)
    requires |cols| == |vals|
    requires forall i | 0 <= i < |cols| :: Fits(cols[i], vals[i])
    requires forall i, j | 0 <= i < j < |cols| :: cols[i] != cols[j]
    ensures forall i | 0 <= i < |cols| && cols[i] == c :: Get(Assign(p, cols, vals), c) == vals[i]
    ensures c !in cols ==> Get(Assign(p, cols, vals), c) == Get(p, c)
    decreases |cols|
  {
    if |cols| > 0 {
      AssignEffect(Set(p, cols[0], vals[0]), cols[1..], vals[1..], c);
      if c == cols[0] {
        assert c !in cols[1..] by {
          forall i | 0 <= i < |cols[1..]| ensures cols[1..][i] != c {
            assert cols[i + 1] != cols[0];
          }
        }
      }
      forall i | 0 <= i < |cols| && cols[i] == c
        ensures Get(Assign(p, cols, vals), c) == vals[i]
      {
        if i > 0 {
          assert cols[1..][i - 1] == c;
        }
      }
    }
  }

  /** The statement `insertProject` prepares (note its closing semicolon). */
  function InsertSql(): string {
    InsertText("projects", Names(AllColumns)) + ";"
  }

  /** The values `insertProject` binds to parameters 1..12; an absent
      completion date is bound as NULL. */
  function InsertParams(p: Project): (r: seq<Value>)
    ensures |r| == |AllColumns|
  {
    [Str(p.name), Str(p.buildingType), Str(p.address), Str(p.erfNumber),
     Num(p.totalFee), Num(p.paidToDate), Day(p.deadline),
     if p.completion.Some? then Day(p.completion.value) else Null,
     Bool(p.finalised), Int(p.architectId), Int(p.contractorId), Int(p.customerId)]
  }

  /** Parameter i + 1 carries the value of the i-th listed column. */
  lemma InsertBindsColumns(p: Project)
    ensures forall i | 0 <= i < |AllColumns| :: InsertParams(p)[i] == Get(p, AllColumns[i])
  {
  }

  /** What the database stores from twelve bound values: `None` when one of
      them does not fit its column. */
  function FromParams(vals: seq<Value>): (r: Option<Project>)
    ensures r.Some? ==> |vals| == |AllColumns|
  {
    if |vals| == |AllColumns| && forall i | 0 <= i < |vals| :: Fits(AllColumns[i], vals[i]) then
      Some(Project(vals[0].s, vals[1].s, vals[2].s, vals[3].s, vals[4].d, vals[5].d, vals[6].date,
                   if vals[7].Day? then Some(vals[7].date) else None,
                   vals[8].b, vals[9].i, vals[10].i, vals[11].i))
    else None
  }

  /** The insert stores exactly the row whose values were bound. */
  lemma InsertStoresRow(p: Project)
    ensures FromParams(InsertParams(p)) == Some(p)
  {
    var v := InsertParams(p);
    assert Fits(AllColumns[0], v[0]) && Fits(AllColumns[1], v[1]) && Fits(AllColumns[2], v[2]);
    assert Fits(AllColumns[3], v[3]) && Fits(AllColumns[4], v[4]) && Fits(AllColumns[5], v[5]);
    assert Fits(AllColumns[6], v[6]) && Fits(AllColumns[7], v[7]) && Fits(AllColumns[8], v[8]);
    assert Fits(AllColumns[9], v[9]) && Fits(AllColumns[10], v[10]) && Fits(AllColumns[11], v[11]);
  }

  /** Every parameter list the database accepts is the binding of the row
      it stores. */
  lemma StoredRowBinds(vals: seq<Value>)
    requires FromParams(vals).Some?
    ensures InsertParams(FromParams(vals).value) == vals
  {
    var p := FromParams(vals).value;
    assert Fits(AllColumns[0], vals[0]) && Fits(AllColumns[1], vals[1]) && Fits(AllColumns[2], vals[2]);
    assert Fits(AllColumns[3], vals[3]) && Fits(AllColumns[4], vals[4]) && Fits(AllColumns[5], vals[5]);
    assert Fits(AllColumns[6], vals[6]) && Fits(AllColumns[7], vals[7]) && Fits(AllColumns[8], vals[8]);
    assert Fits(AllColumns[9], vals[9]) && Fits(AllColumns[10], vals[10]) && Fits(AllColumns[11], vals[11]);
    assert vals == [Str(p.name), Str(p.buildingType), Str(p.address), Str(p.erfNumber),
                    Num(p.totalFee), Num(p.paidToDate), Day(p.deadline), vals[7],
                    Bool(p.finalised), Int(p.architectId), Int(p.contractorId), Int(p.customerId)];
  }

  /** The insert holds one marker per bound value. */
  lemma InsertSqlMarkers(p: Project)
    ensures CountChar(InsertSql(), Marker) == |InsertParams(p)|
  {
    var names := Names(AllColumns);
    forall i | 0 <= i < |names| ensures IsName(names[i]) {
      ColumnNameIsName(AllColumns[i]);
    }
    InsertMarkers("projects", names);
    CountCharAppend(InsertText("projects", names), ";", Marker);
  }

  /** The answers collected by `updateProject`. Text fields are unchanged
      when empty; amounts and dates when absent (Java's `null`); the ids
      when -1. `finalised` is the raw text, read with
      `Boolean.parseBoolean` when not empty. */
  datatype UpdateRequest = UpdateRequest(
    name: string,
    buildingType: string,
    address: string,
    erfNumber: string,
    totalFee: Option<Decimal>,
    paidToDate: Option<Decimal>,
    deadline: Option<Date>,
    completion: Option<Date>,
    finalised: string,
    architectId: int,
    contractorId: int,
    customerId: int)

  /** The sentinel meaning "keep the current id". */
  const Unchanged: int := -1

  /** The request asks to change column `c`. */
  predicate Supplied(req: UpdateRequest, c: Column) {
    match c
    case ProjectName => req.name != ""
    case BuildingType => req.buildingType != ""
    case ProjectAddress => req.address != ""
    case ErfNumber => req.erfNumber != ""
    case TotalFee => req.totalFee.Some?
    case PaidToDate => req.paidToDate.Some?
    case DeadlineDate => req.deadline.Some?
    case CompletionDate => req.completion.Some?
    case Finalised => req.finalised != ""
    case ArchitectId => req.architectId != Unchanged
    case ContractorId => req.contractorId != Unchanged
    case CustomerId => req.customerId != Unchanged
  }

  /** The value bound for a supplied column. */
  function NewValue(req: UpdateRequest, c: Column): (v: Value)
    requires Supplied(req, c)
    ensures Fits(c, v) && !v.Null?
  {
    match c
    case ProjectName => Str(req.name)
    case BuildingType => Str(req.buildingType)
    case ProjectAddress => Str(req.address)
    case ErfNumber => Str(req.erfNumber)
    case TotalFee => Num(req.totalFee.value)
    case PaidToDate => Num(req.paidToDate.value)
    case DeadlineDate => Day(req.deadline.value)
    case CompletionDate => Day(req.completion.value)
    case Finalised => Bool(ParseBoolean(req.finalised))
    case ArchitectId => Int(req.architectId)
    case ContractorId => Int(req.contractorId)
    case CustomerId => Int(req.customerId)
  }

  /** The supplied columns among `cols`, in their order there. */
  function SuppliedIn(req: UpdateRequest, cols: seq<Column>): (r: seq<Column>)
    ensures |r| <= |cols|
    ensures forall i | 0 <= i < |r| :: Supplied(req, r[i])
  {
    if |cols| == 0 then []
    else
      var last := cols[|cols| - 1];
      SuppliedIn(req, cols[..|cols| - 1]) + (if Supplied(req, last) then [last] else [])
  }

  /** A column is among the supplied ones of `cols` exactly when it is in
      `cols` and supplied. */
  lemma {:induction false} SuppliedInMembers(req: UpdateRequest, cols: seq<Column>, c: Column)
    ensures c in SuppliedIn(req, cols) <==> c in cols && Supplied(req, c)
  {
    if |cols| > 0 {
      var init := cols[..|cols| - 1];
      SuppliedInMembers(req, init, c);
      assert cols == init + [cols[|cols| - 1]];
    }
  }

  /** The columns the update sets, in table order. */
  function SuppliedColumns(req: UpdateRequest): seq<Column> {
    SuppliedIn(req, AllColumns)
  }

  /** The values bound for the given supplied columns. */
  function ValuesOf(req: UpdateRequest, cols: seq<Column>): (r: seq<Value>)
    requires forall i | 0 <= i < |cols| :: Supplied(req, cols[i])
    ensures |r| == |cols|
    ensures forall i | 0 <= i < |cols| :: r[i] == NewValue(req, cols[i])
  {
    seq(|cols|, i requires 0 <= i < |cols| => NewValue(req, cols[i]))
  }

  /** The supplied columns keep the table order, so none repeats. */
  lemma {:induction false} SuppliedInOrdered(req: UpdateRequest, n: nat)
    requires n <= |AllColumns|
    ensures forall i, j | 0 <= i < j < |SuppliedIn(req, AllColumns[..n])| ::
      Position(SuppliedIn(req, AllColumns[..n])[i]) < Position(SuppliedIn(req, AllColumns[..n])[j])
    ensures forall i | 0 <= i < |SuppliedIn(req, AllColumns[..n])| :: Position(SuppliedIn(req, AllColumns[..n])[i]) < n
  {
    if n > 0 {
      SuppliedInOrdered(req, n - 1);
      assert AllColumns[..n][..n - 1] == AllColumns[..n - 1];
      AllColumnsOnce();
    }
  }

  /** Exactly the supplied columns are set, each once, in table order. */
  lemma SuppliedColumnsExactly(req: UpdateRequest)
    ensures forall c :: c in SuppliedColumns(req) <==> Supplied(req, c)
    ensures forall i, j | 0 <= i < j < |SuppliedColumns(req)| ::
      Position(SuppliedColumns(req)[i]) < Position(SuppliedColumns(req)[j])
  {
    SuppliedInOrdered(req, |AllColumns|);
    assert AllColumns[..|AllColumns|] == AllColumns;
    forall c ensures c in SuppliedColumns(req) <==> Supplied(req, c) {
      SuppliedInMembers(req, AllColumns, c);
      assert AllColumns[Position(c)] == c;
    }
  }

  /** A prepared statement: its text and its parameters in order. */
  datatype Statement = Statement(sql: string, params: seq<Value>)

  /** The update `updateProjectDetails` would prepare, written the way a
      reader states it: the supplied columns joined by ", ", then the key. */
  function UpdateStatement(req: UpdateRequest, number: int): Statement {
    var cols := SuppliedColumns(req);
    Statement(UpdateText("projects", Names(cols), "project_number") + ";",
              ValuesOf(req, cols) + [Int(number)])
  }

  /** `updateProjectDetails`: goes through the twelve columns in order,
      appending "column = ?, " and the value for each supplied one; if any
      was supplied, drops the last ", " and appends the WHERE clause with
      the project number as the final parameter. `None` is "No fields were
      updated. SQL update not executed." */
  method BuildUpdate(req: UpdateRequest, number: int) returns (r: Option<Statement>)
    ensures r.None? <==> forall c :: !Supplied(req, c)
    ensures r.Some? ==> r.value == UpdateStatement(req, number)
    ensures r.Some? ==> CountChar(r.value.sql, Marker) == |r.value.params|
    ensures r.Some? ==> r.value.params[|r.value.params| - 1] == Int(number)
  {
    var sql, params, anyFieldUpdated := AppendSupplied(req, AllColumns);
    SuppliedColumnsExactly(req);
    if anyFieldUpdated {
      FinishUpdate(req);
      sql := sql[..|sql| - 2] + " WHERE project_number = ?;";
      params := params + [Int(number)];
      r := Some(Statement(sql, params));
      UpdateStatementMarkers(req, number);
    } else {
      r := None;
    }
  }

  /** The twelve conditional appends of `updateProjectDetails`, one per
      column of `cols` in order: the text gains "column = ?, " for each
      supplied column, the parameters its value, and the flag says whether
      there was any. */
  method AppendSupplied(req: UpdateRequest, cols: seq<Column>) returns (sql: string, params: seq<Value>, anyFieldUpdated: bool)
    ensures sql == Built(req, cols, |cols|)
    ensures params == ValuesOf(req, SuppliedIn(req, cols))
    ensures anyFieldUpdated <==> |SuppliedIn(req, cols)| > 0
  {
    sql := Prefix;
    params := [];
    anyFieldUpdated := false;
    var i := 0;
    while i < |cols|
      invariant 0 <= i <= |cols|
      invariant sql == Built(req, cols, i)
      invariant params == ValuesOf(req, SuppliedIn(req, cols[..i]))
      invariant anyFieldUpdated <==> |SuppliedIn(req, cols[..i])| > 0
    {
      var c := cols[i];
      BuildStep(req, cols, i);
      if Supplied(req, c) {
        sql := sql + ColumnName(c) + " = ?, ";
        params := params + [NewValue(req, c)];
        anyFieldUpdated := true;
      }
      i := i + 1;
    }
    assert cols[..|cols|] == cols;
  }

  const Prefix: string := "UPDATE projects SET "

  /** The builder's text after the first `n` columns of `cols`. */
  function Built(req: UpdateRequest, cols: seq<Column>, n: nat): string
    requires n <= |cols|
  {
    Prefix + EachFollowedBy(", ", Assignments(Names(SuppliedIn(req, cols[..n]))))
  }

  /** Looking at column n appends its assignment when it is supplied. */
  lemma BuildStep(req: UpdateRequest, cols: seq<Column>, n: nat)
    requires n < |cols|
    ensures var c := cols[n];
      && SuppliedIn(req, cols[..n + 1]) == SuppliedIn(req, cols[..n]) + (if Supplied(req, c) then [c] else [])
      && Built(req, cols, n + 1) == Built(req, cols, n) + (if Supplied(req, c) then ColumnName(c) + " = ?, " else "")
      && (Supplied(req, c) ==> ValuesOf(req, SuppliedIn(req, cols[..n + 1]))
                               == ValuesOf(req, SuppliedIn(req, cols[..n])) + [NewValue(req, c)])
  {
    var c := cols[n];
    var before := SuppliedIn(req, cols[..n]);
    assert cols[..n + 1][..n] == cols[..n];
    if Supplied(req, c) {
      AppendAssignment(before, c);
      assert ValuesOf(req, before + [c]) == ValuesOf(req, before) + [NewValue(req, c)];
    } else {
      assert SuppliedIn(req, cols[..n + 1]) == before;
    }
  }

  /** Dropping the builder's last ", " and appending the WHERE clause gives
      the statement as a reader writes it. */
  lemma FinishUpdate(req: UpdateRequest)
    requires |SuppliedColumns(req)| > 0
    ensures |Built(req, AllColumns, |AllColumns|)| >= 2
    ensures Built(req, AllColumns, |AllColumns|)[..|Built(req, AllColumns, |AllColumns|)| - 2] + " WHERE project_number = ?;"
         == UpdateText("projects", Names(SuppliedColumns(req)), "project_number") + ";"
  {
    assert AllColumns[..|AllColumns|] == AllColumns;
    var names := Names(SuppliedColumns(req));
    BuiltUpdateText("projects", names, "project_number");
    assert Prefix == "UPDATE " + "projects" + " SET ";
    assert " WHERE project_number = ?;" == " WHERE " + Assignment("project_number") + ";";
  }

  /** One more supplied column adds one "column = ?, " to the text. */
  lemma AppendAssignment(cols: seq<Column>, c: Column)
    ensures Names(cols + [c]) == Names(cols) + [ColumnName(c)]
    ensures EachFollowedBy(", ", Assignments(Names(cols + [c])))
         == EachFollowedBy(", ", Assignments(Names(cols))) + ColumnName(c) + " = ?, "
  {
    assert Names(cols + [c]) == Names(cols) + [ColumnName(c)];
    var items := Assignments(Names(cols));
    assert Assignments(Names(cols + [c])) == items + [Assignment(ColumnName(c))];
    EachFollowedByAppend(", ", items, Assignment(ColumnName(c)));
  }

  lemma {:induction false} EachFollowedByAppend(sep: string, items: seq<string>, x: string)
    ensures EachFollowedBy(sep, items + [x]) == EachFollowedBy(sep, items) + x + sep
  {
    if |items| > 0 {
      assert (items + [x])[1..] == items[1..] + [x];
      EachFollowedByAppend(sep, items[1..], x);
    } else {
      assert items + [x] == [x];
    }
  }

  /** The update holds one marker per bound value. */
  lemma UpdateStatementMarkers(req: UpdateRequest, number: int)
    ensures CountChar(UpdateStatement(req, number).sql, Marker) == |UpdateStatement(req, number).params|
  {
    var names := Names(SuppliedColumns(req));
    forall i | 0 <= i < |names| ensures IsName(names[i]) {
      ColumnNameIsName(SuppliedColumns(req)[i]);
    }
    UpdateMarkers("projects", names, "project_number");
    CountCharAppend(UpdateText("projects", names, "project_number"), ";", Marker);
  }

  /** What the update does to the row it targets. */
  function ApplyUpdate(p: Project, req: UpdateRequest): Project {
    var cols := SuppliedColumns(req);
    Assign(p, cols, ValuesOf(req, cols))
  }

  /** Exactly the supplied columns change, each to the value supplied. */
  lemma ApplyUpdateEffect(p: Project, req: UpdateRequest)
    ensures forall c :: Get(ApplyUpdate(p, req), c) == if Supplied(req, c) then NewValue(req, c) else Get(p, c)
  {
    var cols := SuppliedColumns(req);
    var vals := ValuesOf(req, cols);
    SuppliedColumnsExactly(req);
    forall c ensures Get(ApplyUpdate(p, req), c) == if Supplied(req, c) then NewValue(req, c) else Get(p, c) {
      AssignEffect(p, cols, vals, c);
      if Supplied(req, c) {
        var i :| 0 <= i < |cols| && cols[i] == c;
      }
    }
  }

  /** `UPDATE projects SET ... WHERE project_number = ?` on the table: the
      targeted row changes in its supplied columns only, the others not at
      all. */
  function UpdateProjectRow(s: Projects, number: int, req: UpdateRequest): (r: Projects)
    requires Store.Valid(s)
    ensures Store.Valid(r)
    ensures Store.HasKey(s.rows, number) ==> Store.Lookup(r.rows, number) == Some(ApplyUpdate(Store.Lookup(s.rows, number).value, req))
    ensures forall k | k != number :: Store.Lookup(r.rows, k) == Store.Lookup(s.rows, k)
  {
    Store.Update(s, number, p => ApplyUpdate(p, req))
  }

  /** The update never writes NULL: a recorded completion date stays set. */
  lemma UpdateKeepsCompletion(p: Project, req: UpdateRequest)
    requires p.completion.Some?
    ensures ApplyUpdate(p, req).completion.Some?
  {
    ApplyUpdateEffect(p, req);
    assert Get(ApplyUpdate(p, req), CompletionDate) != Null;
  }

  /** `finalised` is stored true exactly when its text is "true" in any
      letter case. */
  lemma UpdateFinalised(p: Project, req: UpdateRequest)
    requires req.finalised != ""
    ensures ApplyUpdate(p, req).finalised <==> ToLower(req.finalised) == "true"
  {
    ApplyUpdateEffect(p, req);
    assert Get(ApplyUpdate(p, req), Finalised) == Bool(ParseBoolean(req.finalised));
  }

  /** "yes" and " true" store false; "TRUE" stores true. */
  lemma FinalisedExamples()
    ensures !ParseBoolean("yes") && !ParseBoolean(" true") && ParseBoolean("TRUE")
  {
    assert ToLower("TRUE") == "true";
    assert ToLower(" true")[0] == ' ';
  }
}
