/** Updating and deleting a project from the console: the prompt for the
    project number (0 goes back), the prompts for the new details, where a
    blank answer keeps the current value, and the statement that follows. */
module ProjectEditing {
  import opened Wrappers
  import opened Text
  import opened Money
  import opened Dates
  import Store
  import Prompt
  import opened People
  import opened Projects
  import opened Database

  /** One answer to "Enter Project Number to update/delete (or 0 to return
      to the main menu)": exactly "0" goes back; any other text must parse
      as an `int` naming an existing project, else the prompt repeats. */
  function ChooseProject(s: Projects, line: string): (r: Option<Choice>)
    ensures r == Some(Back) <==> line == "0"
    ensures r.Some? && r.value.Row? ==> ParseInt(line) == Some(r.value.id) && Store.HasKey(s.rows, r.value.id)
    ensures line != "0" && ParseInt(line).Some? && Store.HasKey(s.rows, ParseInt(line).value) ==> r.Some?
  {
    if line == "0" then Some(Back)
    else match ParseInt(line)
      case None => None
      case Some(n) => if Store.HasKey(s.rows, n) then Some(Row(n)) else None
  }

  function ProjectChooser(s: Projects): string -> Option<Choice> {
    line => ChooseProject(s, line)
  }

  /** Only the literal "0" goes back: "00" and "-0" parse to 0, which no
      project has, so they are asked again. */
  lemma OtherZerosAskAgain(s: Projects)
    requires Store.Valid(s)
    ensures ChooseProject(s, "00") == None && ChooseProject(s, "-0") == None
  {
    assert DigitsValue("00") == 0 by {
      assert "00"[..1] == "0";
      assert DigitsValue("0") == 0 by { assert "0"[..0] == ""; }
    }
    assert ParseInt("00") == Some(0) by { assert IsDigit("00"[0]) && IsDigit("00"[1]); }
    assert ParseInt("-0") == Some(0) by {
      assert "-0"[1..] == "0";
      assert DigitsValue("0") == 0 by { assert "0"[..0] == ""; }
    }
    assert !Store.HasKey(s.rows, 0) by {
      assert forall i | 0 <= i < |s.rows| :: s.rows[i].0 >= 1;
    }
  }

  /** `getValidatedMonetaryInput`: an empty line keeps the current value
      (`Some(None)`); anything else must be a `BigDecimal` or is asked
      again (`None`). */
  function ReadAmount(line: string): (r: Option<Option<Decimal>>)
    ensures r == Some(None) <==> line == ""
    ensures r.None? <==> line != "" && ParseDecimal(line).None?
    ensures r.Some? && r.value.Some? ==> ParseDecimal(line) == r.value
  {
    if line == "" then Some(None)
    else match ParseDecimal(line)
      case None => None
      case Some(d) => Some(Some(d))
  }

  /** `getValidatedDateInput`: the same for dates read with `Date.valueOf`. */
  function ReadDate(line: string): (r: Option<Option<Date>>)
    ensures r == Some(None) <==> line == ""
    ensures r.None? <==> line != "" && ParseDate(line).None?
    ensures r.Some? && r.value.Some? ==> ParseDate(line) == r.value && IsCalendarDate(r.value.value)
  {
    if line == "" then Some(None)
    else match ParseDate(line)
      case None => None
      case Some(d) => Some(Some(d))
  }

  /** A value written the way the program prints it is read back as that
      value; a line of blanks is not "empty" and is asked again. */
  lemma ReadBack(d: Decimal, day: Date)
    requires 0 <= day.year <= 9999 && IsCalendarDate(day)
    ensures ReadAmount(FormatDecimal(d)) == Some(Some(d))
    ensures ReadDate(FormatDate(day)) == Some(Some(day))
    ensures ReadAmount(" ") == None && ReadDate(" ") == None
  {
    ParseFormattedDecimal(d);
    ParseFormattedDate(day);
  }

  /** `getValidatedId` of the update: an empty line keeps the current id
      (the sentinel -1); otherwise the line must parse as an `int` that is
      an id of table `t`, or it is asked again. */
  function ReadId(db: Db, t: Table, line: string): (r: Option<int>)
    ensures line == "" ==> r == Some(Unchanged)
    ensures line != "" && r.Some? ==> ParseInt(line) == r && IdExists(db, t, r.value)
    ensures line != "" && ParseInt(line).Some? && IdExists(db, t, ParseInt(line).value) ==> r.Some?
  {
    if line == "" then Some(Unchanged)
    else match ParseInt(line)
      case None => None
      case Some(id) => if IdExists(db, t, id) then Some(id) else None
  }

  /** The sentinel can only be reached by the empty line: typing "-1" is
      asked again, because no table has that id. */
  lemma OnlyBlankKeepsId(db: Db, t: Table, line: string)
    requires Valid(db)
    ensures ReadId(db, t, line) == Some(Unchanged) <==> line == ""
    ensures ReadId(db, t, "-1") == None
  {
    SentinelsNeverExist(db, t);
    assert ParseInt("-1") == Some(-1) by {
      assert "-1"[1..] == "1";
      assert DigitsValue("1") == 1 by { assert "1"[..0] == ""; }
    }
  }

  /** Every id in the request is "unchanged" or names an existing person of
      the right table. */
  predicate IdsExist(db: Db, req: UpdateRequest) {
    (req.architectId == Unchanged || IdExists(db, Architect, req.architectId))
    && (req.contractorId == Unchanged || IdExists(db, Contractor, req.contractorId))
    && (req.customerId == Unchanged || IdExists(db, Customer, req.customerId))
  }

  /** The value one prompt of the add and update dialogues yields. The
      `Maybe` forms carry Java's `null`: "keep the current value" in the
      update, "no completion date" in the add. */
  datatype Answer =
    | Line(text: string)
    | Sum(amount: Decimal)
    | MaybeSum(maybeAmount: Option<Decimal>)
    | When(on: Date)
    | MaybeWhen(maybeOn: Option<Date>)
    | Flag(flag: bool)
    | Ref(person: int)

  /** `getInput`: the line as typed, never refused. */
  function RawAnswer(line: string): (r: Option<Answer>)
    ensures r.Some? && r.value.Line? && r.value.text == line
  {
    Some(Line(line))
  }

  function AmountAnswer(line: string): (r: Option<Answer>)
    ensures r.Some? <==> ReadAmount(line).Some?
    ensures r.Some? ==> r.value.MaybeSum? && ReadAmount(line) == Some(r.value.maybeAmount)
  {
    match ReadAmount(line)
    case None => None
    case Some(a) => Some(MaybeSum(a))
  }

  /** An optional date: blank keeps the value (or, in `addNewProject`'s
      `getOptionalDateInput`, is `null`); anything else is a date or asked
      again. */
  function DateAnswer(line: string): (r: Option<Answer>)
    ensures r.Some? <==> ReadDate(line).Some?
    ensures r.Some? ==> r.value.MaybeWhen? && ReadDate(line) == Some(r.value.maybeOn)
  {
    match ReadDate(line)
    case None => None
    case Some(d) => Some(MaybeWhen(d))
  }

  function IdAnswer(db: Db, t: Table, line: string): (r: Option<Answer>)
    ensures r.Some? <==> ReadId(db, t, line).Some?
    ensures r.Some? ==> r.value.Ref? && ReadId(db, t, line) == Some(r.value.person)
  {
    match ReadId(db, t, line)
    case None => None
    case Some(id) => Some(Ref(id))
  }

  /** The prompts for the new details, in order: four free-text lines, two
      amounts, two dates, the finalised text and three ids. */
  function UpdatePrompts(db: Db): seq<string -> Option<Answer>> {
    [RawAnswer, RawAnswer, RawAnswer, RawAnswer,
     AmountAnswer, AmountAnswer, DateAnswer, DateAnswer, RawAnswer,
     line => IdAnswer(db, Architect, line), line => IdAnswer(db, Contractor, line),
     line => IdAnswer(db, Customer, line)]
  }

  /** The answers that make up a request, in prompt order. */
  function UpdateAnswers(req: UpdateRequest): seq<Answer> {
    [Line(req.name), Line(req.buildingType), Line(req.address), Line(req.erfNumber),
     MaybeSum(req.totalFee), MaybeSum(req.paidToDate), MaybeWhen(req.deadline), MaybeWhen(req.completion),
     Line(req.finalised), Ref(req.architectId), Ref(req.contractorId), Ref(req.customerId)]
  }

  predicate IsUpdateShape(a: seq<Answer>) {
    |a| == 12 && a[0].Line? && a[1].Line? && a[2].Line? && a[3].Line?
    && a[4].MaybeSum? && a[5].MaybeSum? && a[6].MaybeWhen? && a[7].MaybeWhen?
    && a[8].Line? && a[9].Ref? && a[10].Ref? && a[11].Ref?
  }

  function RequestOf(a: seq<Answer>): UpdateRequest
    requires IsUpdateShape(a)
  {
    UpdateRequest(a[0].text, a[1].text, a[2].text, a[3].text,
                  a[4].maybeAmount, a[5].maybeAmount, a[6].maybeOn, a[7].maybeOn,
                  a[8].text, a[9].person, a[10].person, a[11].person)
  }

  /** A free-text prompt takes the very next line, as typed. */
  lemma RawTakesNextLine(lines: seq<string>, from: int, to: int, v: Answer)
    requires Prompt.Answered(lines, RawAnswer, from, to, v)
    ensures to == from + 1 && v == Line(lines[from])
  {
    assert RawAnswer(lines[from]).Some?;
  }

  /** Whatever the update prompts accept reads back as a request whose ids
      were all checked. */
  lemma UpdateDialogueShape(db: Db, lines: seq<string>, ends: seq<int>, a: seq<Answer>)
    requires Prompt.Dialogue(lines, UpdatePrompts(db), ends, a)
    ensures IsUpdateShape(a) && UpdateAnswers(RequestOf(a)) == a && IdsExist(db, RequestOf(a))
  {
    TextAnswers(db, lines, ends, a);
    ValueAnswers(db, lines, ends, a);
    IdAnswers(db, lines, ends, a);
    RequestRoundTrip(a);
  }

  lemma TextAnswers(db: Db, lines: seq<string>, ends: seq<int>, a: seq<Answer>)
    requires Prompt.Dialogue(lines, UpdatePrompts(db), ends, a)
    ensures |a| == 12 && a[0].Line? && a[1].Line? && a[2].Line? && a[3].Line? && a[8].Line?
  {
    var ps := UpdatePrompts(db);
    forall i | i in {0, 1, 2, 3, 8} ensures a[i].Line? {
      Prompt.DialogueAnswer(lines, ps, ends, a, i);
      assert ps[i] == RawAnswer;
    }
  }

  lemma ValueAnswers(db: Db, lines: seq<string>, ends: seq<int>, a: seq<Answer>)
    requires Prompt.Dialogue(lines, UpdatePrompts(db), ends, a)
    ensures |a| == 12 && a[4].MaybeSum? && a[5].MaybeSum? && a[6].MaybeWhen? && a[7].MaybeWhen?
  {
    var ps := UpdatePrompts(db);
    forall i | i in {4, 5} ensures a[i].MaybeSum? {
      Prompt.DialogueAnswer(lines, ps, ends, a, i);
      assert ps[i] == AmountAnswer;
    }
    forall i | i in {6, 7} ensures a[i].MaybeWhen? {
      Prompt.DialogueAnswer(lines, ps, ends, a, i);
      assert ps[i] == DateAnswer;
    }
  }

  lemma IdAnswers(db: Db, lines: seq<string>, ends: seq<int>, a: seq<Answer>)
    requires Prompt.Dialogue(lines, UpdatePrompts(db), ends, a)
    ensures |a| == 12 && a[9].Ref? && a[10].Ref? && a[11].Ref?
    ensures a[9].person == Unchanged || IdExists(db, Architect, a[9].person)
    ensures a[10].person == Unchanged || IdExists(db, Contractor, a[10].person)
    ensures a[11].person == Unchanged || IdExists(db, Customer, a[11].person)
  {
    var ps := UpdatePrompts(db);
    Prompt.DialogueAnswer(lines, ps, ends, a, 9);
    assert IdAnswer(db, Architect, lines[ends[9] - 1]) == Some(a[9]);
    Prompt.DialogueAnswer(lines, ps, ends, a, 10);
    assert IdAnswer(db, Contractor, lines[ends[10] - 1]) == Some(a[10]);
    Prompt.DialogueAnswer(lines, ps, ends, a, 11);
    assert IdAnswer(db, Customer, lines[ends[11] - 1]) == Some(a[11]);
  }

  /** Reading a request out of its answers loses nothing. */
  lemma RequestRoundTrip(a: seq<Answer>)
    requires IsUpdateShape(a)
    ensures UpdateAnswers(RequestOf(a)) == a
  {
    assert forall i | 0 <= i < 12 :: UpdateAnswers(RequestOf(a))[i] == a[i];
  }

  /** Reads the new details. `None` is the input ending before the last
      answer. Each field is the answer of its prompt: a free-text field is
      its line as typed; an amount, a date or an id is what its validator
      made of the first line it accepted, a blank line giving "keep". */
  method ReadUpdateRequest(db: Db, lines: seq<string>) returns (req: Option<UpdateRequest>, ends: seq<int>)
    ensures req.Some? ==> Prompt.Dialogue(lines, UpdatePrompts(db), ends, UpdateAnswers(req.value))
    ensures req.None? ==> exists a :: Prompt.Stalled(lines, UpdatePrompts(db), ends, a)
    ensures req.Some? ==> 4 <= |lines| && req.value.name == lines[0] && req.value.buildingType == lines[1]
    ensures req.Some? ==> req.value.address == lines[2] && req.value.erfNumber == lines[3]
    ensures req.Some? ==> IdsExist(db, req.value)
    ensures req.Some? ==> DetailsRead(db, lines, req.value)
    ensures req.None? ==> DetailsStalled(db, lines)
  {
    var a;
    a, ends := Prompt.Converse(lines, UpdatePrompts(db));
    if |a| < 12 {
      return None, ends;
    }
    UpdateDialogueShape(db, lines, ends, a);
    req := Some(RequestOf(a));
    TextLinesFirst(lines, UpdatePrompts(db), 12, ends, a);
  }

  /** The four free-text prompts come first, so they take lines 0 to 3. */
  lemma TextLinesFirst(lines: seq<string>, ps: seq<string -> Option<Answer>>, k: int, ends: seq<int>, a: seq<Answer>)
    requires Prompt.Steps(lines, ps, k, ends, a) && 4 <= k
    requires ps[0] == RawAnswer && ps[1] == RawAnswer && ps[2] == RawAnswer && ps[3] == RawAnswer
    ensures 4 <= |lines| && forall i | 0 <= i < 4 :: a[i] == Line(lines[i])
  {
    var i := 0;
    while i < 4
      invariant 0 <= i <= 4 && Prompt.Start(ends, i) == i
      invariant forall j | 0 <= j < i :: a[j] == Line(lines[j])
    {
      assert ps[i] == RawAnswer;
      RawTakesNextLine(lines, Prompt.Start(ends, i), ends[i], a[i]);
      i := i + 1;
    }
  }

  /** `lines` answer every detail prompt, with the fields of `req`. */
  ghost predicate DetailsRead(db: Db, lines: seq<string>, req: UpdateRequest) {
    exists ends :: Prompt.Dialogue(lines, UpdatePrompts(db), ends, UpdateAnswers(req))
  }

  /** `lines` run out before the last detail prompt is answered. */
  ghost predicate DetailsStalled(db: Db, lines: seq<string>) {
    exists ends, a :: Prompt.Stalled(lines, UpdatePrompts(db), ends, a)
  }

  /** `updateProject`: the number prompt, then the detail prompts, then the
      update of that one row. Nothing changes when 0 comes first or the
      input runs out; the person tables never change. */
  method UpdateProject(db: Db, lines: seq<string>) returns (r: Db, edit: Option<(int, UpdateRequest)>)
    requires Valid(db)
    ensures Valid(r)
    ensures r.architects == db.architects && r.contractors == db.contractors && r.customers == db.customers
    ensures edit.None? ==> r == db
    ensures edit.Some? ==> Store.HasKey(db.projects.rows, edit.value.0)
                           && r.projects == UpdateProjectRow(db.projects, edit.value.0, edit.value.1)
    ensures edit.Some? ==> IdsExist(db, edit.value.1)
    ensures edit.Some? ==> exists i | Prompt.FirstAccepted(lines, ProjectChooser(db.projects), i) ::
                             ChooseProject(db.projects, lines[i]) == Some(Row(edit.value.0))
                             && i + 5 <= |lines| && edit.value.1.name == lines[i + 1]
                             && DetailsRead(db, lines[i + 1..], edit.value.1)
    ensures forall i | Prompt.FirstAccepted(lines, ProjectChooser(db.projects), i) && lines[i] == "0" :: edit.None?
    ensures edit.None? ==> (forall j | 0 <= j < |lines| :: ChooseProject(db.projects, lines[j]).None?)
                           || exists i | Prompt.FirstAccepted(lines, ProjectChooser(db.projects), i) ::
                                lines[i] == "0" || DetailsStalled(db, lines[i + 1..])
  {
    var c, used := Prompt.ReadUntil(lines, ProjectChooser(db.projects));
    if c.None? {
      return db, None;
    }
    assert ChooseProject(db.projects, lines[used - 1]) == c;
    if c.value.Back? {
      return db, None;
    }
    var number := c.value.id;
    var i := used - 1;
    var req, ends := ReadUpdateRequest(db, lines[used..]);
    assert lines[i + 1..] == lines[used..];
    if req.None? {
      return db, None;
    }
    assert lines[used..][0] == lines[used];
    r := db.(projects := UpdateProjectRow(db.projects, number, req.value));
    edit := Some((number, req.value));
  }

  /** An update never points a project at a person who does not exist:
      each id is either the one it had or one that was checked. */
  lemma UpdateKeepsReferences(db: Db, number: int, req: UpdateRequest, t: Table)
    requires Valid(db) && Store.HasKey(db.projects.rows, number) && IdsExist(db, req)
    ensures var p := Store.Lookup(db.projects.rows, number).value;
            var q := Store.Lookup(UpdateProjectRow(db.projects, number, req).rows, number).value;
            Reference(q, t) == Reference(p, t) || IdExists(db, t, Reference(q, t))
  {
    var p := Store.Lookup(db.projects.rows, number).value;
    ApplyUpdateEffect(p, req);
    var q := ApplyUpdate(p, req);
    assert Get(q, ArchitectId) == Int(q.architectId) && Get(p, ArchitectId) == Int(p.architectId);
    assert Get(q, ContractorId) == Int(q.contractorId) && Get(p, ContractorId) == Int(p.contractorId);
    assert Get(q, CustomerId) == Int(q.customerId) && Get(p, CustomerId) == Int(p.customerId);
  }

  /** Updating a project with checked ids keeps every project's people in
      existence. */
  lemma UpdateKeepsIntegrity(db: Db, number: int, req: UpdateRequest)
    requires Valid(db) && Integrity(db) && Store.HasKey(db.projects.rows, number) && IdsExist(db, req)
    ensures Integrity(db.(projects := UpdateProjectRow(db.projects, number, req)))
  {
    UpdatedRowReferenced(db, number, req);
    IntegrityAfterOneChange(db, db.(projects := UpdateProjectRow(db.projects, number, req)), number);
  }

  /** The updated row itself names existing people. */
  lemma UpdatedRowReferenced(db: Db, number: int, req: UpdateRequest)
    requires Valid(db) && Integrity(db) && Store.HasKey(db.projects.rows, number) && IdsExist(db, req)
    ensures Referenced(db, Store.Lookup(UpdateProjectRow(db.projects, number, req).rows, number).value)
  {
    var p := Store.Lookup(db.projects.rows, number).value;
    var q := Store.Lookup(UpdateProjectRow(db.projects, number, req).rows, number).value;
    assert Referenced(db, p);
    UpdateKeepsReferences(db, number, req, Architect);
    UpdateKeepsReferences(db, number, req, Contractor);
    UpdateKeepsReferences(db, number, req, Customer);
    assert IdExists(db, Architect, Reference(q, Architect));
    assert IdExists(db, Contractor, Reference(q, Contractor));
    assert IdExists(db, Customer, Reference(q, Customer));
  }

  /** Removing a project cannot leave another one naming a missing person. */
  lemma DeleteKeepsIntegrity(db: Db, number: int)
    requires Valid(db) && Integrity(db)
    ensures Integrity(db.(projects := Store.Delete(db.projects, number)))
  {
    IntegrityAfterOneChange(db, db.(projects := Store.Delete(db.projects, number)), number);
  }

  /** `deleteProject`: the number prompt, then `DELETE FROM projects WHERE
      project_number = ?` for the project chosen. */
  method DeleteProject(db: Db, lines: seq<string>) returns (r: Db, deleted: Option<int>)
    requires Valid(db)
    ensures Valid(r)
    ensures r.architects == db.architects && r.contractors == db.contractors && r.customers == db.customers
    ensures deleted.None? ==> r == db
    ensures deleted.Some? ==> Store.HasKey(db.projects.rows, deleted.value)
                              && r.projects == Store.Delete(db.projects, deleted.value)
    ensures deleted.Some? ==> exists i | Prompt.FirstAccepted(lines, ProjectChooser(db.projects), i) ::
                                ChooseProject(db.projects, lines[i]) == Some(Row(deleted.value))
    ensures forall i | Prompt.FirstAccepted(lines, ProjectChooser(db.projects), i) ::
              deleted.None? <==> lines[i] == "0"
  {
    var c, used := Prompt.ReadUntil(lines, ProjectChooser(db.projects));
    if c.None? || c.value.Back? {
      return db, None;
    }
    var number := c.value.id;
    assert ChooseProject(db.projects, lines[used - 1]) == Some(Row(number));
    r := db.(projects := Store.Delete(db.projects, number));
    deleted := Some(number);
  }
}
