/** Adding a project from the console: twelve prompts, each with its own
    rule for what it accepts, then one INSERT of the twelve values. */
module NewProject {
  import opened Wrappers
  import opened Text
  import opened Money
  import opened Dates
  import Store
  import Prompt
  import opened People
  import opened Projects
  import opened Database
  import opened ProjectEditing

  /** `getRequiredInput`: any line but the empty one, kept as typed. */
  function RequiredText(line: string): (r: Option<string>)
    ensures r.Some? <==> line != ""
    ensures r.Some? ==> r.value == line
  {
    if line == "" then None else Some(line)
  }

  /** A line of blanks passes as a required value: only the empty line is
      refused. */
  lemma BlankIsNotEmpty()
    ensures RequiredText(" ") == Some(" ")
    ensures RequiredText("") == None
  {
  }

  /** `getValidatedBooleanInput`: the line trimmed and lower-cased must be
      "true" or "false". */
  function StrictBoolean(line: string): (r: Option<bool>)
    ensures r == Some(true) <==> ToLower(Trim(line)) == "true"
    ensures r == Some(false) <==> ToLower(Trim(line)) == "false"
  {
    var answer := ToLower(Trim(line));
    if answer == "true" || answer == "false" then Some(ParseBoolean(answer)) else None
  }

  /** An accepted answer means what `Boolean.parseBoolean` reads in the
      trimmed line. */
  lemma BooleanMeaning(line: string)
    requires StrictBoolean(line).Some?
    ensures StrictBoolean(line).value == ParseBoolean(Trim(line))
  {
    ToLowerIdempotent(Trim(line));
  }

  /** The update prompt neither trims nor refuses, so it reads " true" as
      false where this prompt reads it as true. */
  lemma BooleanExamples()
    ensures StrictBoolean(" true") == Some(true) && !ParseBoolean(" true")
    ensures StrictBoolean("yes") == None
  {
    assert TrimStart(" true") == "true" by { assert " true"[1..] == "true"; }
    assert TrimEnd("true") == "true";
    assert Trim(" true") == "true";
    assert ToLower("true") == "true";
    assert ToLower(" true")[0] == ' ';
    assert TrimStart("yes") == "yes";
    assert TrimEnd("yes") == "yes";
    assert ToLower("yes") == "yes";
  }

  /** `getValidatedId` of the insert: the line must parse as an `int` that
      is an id of table `t`; there is no way to skip it. */
  function ExistingId(db: Db, t: Table, line: string): (r: Option<int>)
    ensures r.Some? <==> ParseInt(line).Some? && IdExists(db, t, ParseInt(line).value)
    ensures r.Some? ==> r == ParseInt(line)
  {
    match ParseInt(line)
    case None => None
    case Some(id) => if IdExists(db, t, id) then Some(id) else None
  }

  /** Neither an empty line nor 0 nor -1 gets past the insert's id prompt. */
  lemma NoSentinelIds(db: Db, t: Table)
    requires Valid(db)
    ensures ExistingId(db, t, "") == None && ExistingId(db, t, "0") == None
    ensures ExistingId(db, t, "-1") == None
  {
    SentinelsNeverExist(db, t);
    assert ParseInt("0") == Some(0) by { assert DigitsValue("0") == 0 by { assert "0"[..0] == ""; } }
    assert ParseInt("-1") == Some(-1) by {
      assert "-1"[1..] == "1";
      assert DigitsValue("1") == 1 by { assert "1"[..0] == ""; }
    }
  }

  /** `getOptionalInput`: the name is whatever is typed, trimmed. */
  function NameAnswer(line: string): (r: Option<Answer>)
    ensures r.Some? && r.value.Line? && r.value.text == Trim(line)
  {
    Some(Line(Trim(line)))
  }

  function RequiredAnswer(line: string): (r: Option<Answer>)
    ensures r.Some? <==> line != ""
    ensures r.Some? ==> r.value.Line? && r.value.text == line
  {
    match RequiredText(line)
    case None => None
    case Some(s) => Some(Line(s))
  }

  /** `getValidatedMonetaryInput`: a `BigDecimal`, asked again otherwise. */
  function FeeAnswer(line: string): (r: Option<Answer>)
    ensures r.Some? <==> ParseDecimal(line).Some?
    ensures r.Some? ==> r.value.Sum? && ParseDecimal(line) == Some(r.value.amount)
  {
    match ParseDecimal(line)
    case None => None
    case Some(d) => Some(Sum(d))
  }

  /** `getValidatedDateInput`: a date, asked again otherwise. */
  function DeadlineAnswer(line: string): (r: Option<Answer>)
    ensures r.Some? <==> ParseDate(line).Some?
    ensures r.Some? ==> r.value.When? && ParseDate(line) == Some(r.value.on) && IsCalendarDate(r.value.on)
  {
    match ParseDate(line)
    case None => None
    case Some(d) => Some(When(d))
  }

  function FinalisedAnswer(line: string): (r: Option<Answer>)
    ensures r.Some? <==> StrictBoolean(line).Some?
    ensures r.Some? ==> r.value.Flag? && StrictBoolean(line) == Some(r.value.flag)
  {
    match StrictBoolean(line)
    case None => None
    case Some(b) => Some(Flag(b))
  }

  function PersonAnswer(db: Db, t: Table, line: string): (r: Option<Answer>)
    ensures r.Some? <==> ExistingId(db, t, line).Some?
    ensures r.Some? ==> r.value.Ref? && ExistingId(db, t, line) == Some(r.value.person)
  {
    match ExistingId(db, t, line)
    case None => None
    case Some(id) => Some(Ref(id))
  }

  /** The twelve prompts of `addNewProject`, in order. */
  function NewProjectPrompts(db: Db): seq<string -> Option<Answer>> {
    [NameAnswer, RequiredAnswer, RequiredAnswer, RequiredAnswer,
     FeeAnswer, FeeAnswer, DeadlineAnswer, DateAnswer, FinalisedAnswer,
     line => PersonAnswer(db, Architect, line), line => PersonAnswer(db, Contractor, line),
     line => PersonAnswer(db, Customer, line)]
  }

  /** A project's fields as the answers that give them, in prompt order. */
  function ProjectAnswers(p: Project): seq<Answer> {
    [Line(p.name), Line(p.buildingType), Line(p.address), Line(p.erfNumber),
     Sum(p.totalFee), Sum(p.paidToDate), When(p.deadline), MaybeWhen(p.completion), Flag(p.finalised),
     Ref(p.architectId), Ref(p.contractorId), Ref(p.customerId)]
  }

  predicate IsProjectShape(a: seq<Answer>) {
    |a| == 12 && a[0].Line? && a[1].Line? && a[2].Line? && a[3].Line?
    && a[4].Sum? && a[5].Sum? && a[6].When? && a[7].MaybeWhen? && a[8].Flag?
    && a[9].Ref? && a[10].Ref? && a[11].Ref?
  }

  function ProjectOf(a: seq<Answer>): Project
    requires IsProjectShape(a)
  {
    Project(a[0].text, a[1].text, a[2].text, a[3].text, a[4].amount, a[5].amount,
            a[6].on, a[7].maybeOn, a[8].flag, a[9].person, a[10].person, a[11].person)
  }

  /** Reading a project out of its answers loses nothing. */
  lemma ProjectRoundTrip(a: seq<Answer>)
    requires IsProjectShape(a)
    ensures ProjectAnswers(ProjectOf(a)) == a
  {
    assert forall i | 0 <= i < 12 :: ProjectAnswers(ProjectOf(a))[i] == a[i];
  }

  lemma PlaceAnswers(db: Db, lines: seq<string>, ends: seq<int>, a: seq<Answer>)
    requires Prompt.Dialogue(lines, NewProjectPrompts(db), ends, a)
    ensures |a| == 12 && 0 < ends[0] <= |lines| && a[0].Line? && a[0].text == Trim(lines[0])
    ensures a[1].Line? && a[2].Line? && a[3].Line?
    ensures a[1].text != "" && a[2].text != "" && a[3].text != ""
  {
    var ps := NewProjectPrompts(db);
    Prompt.DialogueAnswer(lines, ps, ends, a, 0);
    assert ps[0] == NameAnswer;
    assert ends[0] == 1 by {
      assert Prompt.Answered(lines, ps[0], Prompt.Start(ends, 0), ends[0], a[0]);
      assert NameAnswer(lines[0]).Some?;
    }
    forall i | i in {1, 2, 3} ensures a[i].Line? && a[i].text != "" {
      Prompt.DialogueAnswer(lines, ps, ends, a, i);
      assert ps[i] == RequiredAnswer;
    }
  }

  lemma TermAnswers(db: Db, lines: seq<string>, ends: seq<int>, a: seq<Answer>)
    requires Prompt.Dialogue(lines, NewProjectPrompts(db), ends, a)
    ensures |a| == 12 && a[4].Sum? && a[5].Sum? && a[8].Flag?
  {
    FeeAt(db, lines, ends, a, 4);
    FeeAt(db, lines, ends, a, 5);
    FlagAt(db, lines, ends, a);
  }

  lemma FeeAt(db: Db, lines: seq<string>, ends: seq<int>, a: seq<Answer>, i: int)
    requires Prompt.Dialogue(lines, NewProjectPrompts(db), ends, a) && (i == 4 || i == 5)
    ensures |a| == 12 && a[i].Sum?
  {
    Prompt.DialogueAnswer(lines, NewProjectPrompts(db), ends, a, i);
    assert NewProjectPrompts(db)[i] == FeeAnswer;
  }

  lemma FlagAt(db: Db, lines: seq<string>, ends: seq<int>, a: seq<Answer>)
    requires Prompt.Dialogue(lines, NewProjectPrompts(db), ends, a)
    ensures |a| == 12 && a[8].Flag?
  {
    Prompt.DialogueAnswer(lines, NewProjectPrompts(db), ends, a, 8);
    assert NewProjectPrompts(db)[8] == FinalisedAnswer;
  }

  lemma DateAnswers(db: Db, lines: seq<string>, ends: seq<int>, a: seq<Answer>)
    requires Prompt.Dialogue(lines, NewProjectPrompts(db), ends, a)
    ensures |a| == 12 && a[6].When? && a[7].MaybeWhen?
    ensures IsCalendarDate(a[6].on)
    ensures a[7].maybeOn.Some? ==> IsCalendarDate(a[7].maybeOn.value)
  {
    var ps := NewProjectPrompts(db);
    Prompt.DialogueAnswer(lines, ps, ends, a, 6);
    assert DeadlineAnswer(lines[ends[6] - 1]) == Some(a[6]);
    Prompt.DialogueAnswer(lines, ps, ends, a, 7);
    assert DateAnswer(lines[ends[7] - 1]) == Some(a[7]);
  }

  lemma PeopleAnswers(db: Db, lines: seq<string>, ends: seq<int>, a: seq<Answer>)
    requires Prompt.Dialogue(lines, NewProjectPrompts(db), ends, a)
    ensures |a| == 12 && a[9].Ref? && a[10].Ref? && a[11].Ref?
    ensures IdExists(db, Architect, a[9].person) && IdExists(db, Contractor, a[10].person)
    ensures IdExists(db, Customer, a[11].person)
  {
    var ps := NewProjectPrompts(db);
    Prompt.DialogueAnswer(lines, ps, ends, a, 9);
    assert PersonAnswer(db, Architect, lines[ends[9] - 1]) == Some(a[9]);
    Prompt.DialogueAnswer(lines, ps, ends, a, 10);
    assert PersonAnswer(db, Contractor, lines[ends[10] - 1]) == Some(a[10]);
    Prompt.DialogueAnswer(lines, ps, ends, a, 11);
    assert PersonAnswer(db, Customer, lines[ends[11] - 1]) == Some(a[11]);
  }

  /** Whatever the twelve prompts accept describes a project whose people
      exist, and the project gives back exactly those answers. */
  lemma NewProjectDialogueShape(db: Db, lines: seq<string>, ends: seq<int>, a: seq<Answer>)
    requires Prompt.Dialogue(lines, NewProjectPrompts(db), ends, a)
    ensures IsProjectShape(a) && ProjectAnswers(ProjectOf(a)) == a && Referenced(db, ProjectOf(a))
    ensures 1 <= |lines| && ProjectOf(a).name == Trim(lines[0])
  {
    PlaceAnswers(db, lines, ends, a);
    TermAnswers(db, lines, ends, a);
    DateAnswers(db, lines, ends, a);
    PeopleAnswers(db, lines, ends, a);
    ProjectRoundTrip(a);
  }

  /** The twelve prompts of `addNewProject`, in order. Each field is the
      answer of its prompt: what its validator made of the first line it
      accepted. `None` is the input ending while a prompt was still
      asking. */
  method ReadNewProject(db: Db, lines: seq<string>) returns (p: Option<Project>, ends: seq<int>)
    ensures p.Some? ==> Prompt.Dialogue(lines, NewProjectPrompts(db), ends, ProjectAnswers(p.value))
    ensures p.None? ==> exists a :: Prompt.Stalled(lines, NewProjectPrompts(db), ends, a)
    ensures p.Some? ==> 1 <= |lines| && p.value.name == Trim(lines[0])
    ensures p.Some? ==> p.value.buildingType != "" && p.value.address != "" && p.value.erfNumber != ""
    ensures p.Some? ==> IsCalendarDate(p.value.deadline)
    ensures p.Some? && p.value.completion.Some? ==> IsCalendarDate(p.value.completion.value)
    ensures p.Some? ==> Referenced(db, p.value)
  {
    var a;
    a, ends := Prompt.Converse(lines, NewProjectPrompts(db));
    if |a| < 12 {
      return None, ends;
    }
    NewProjectDialogueShape(db, lines, ends, a);
    PlaceAnswers(db, lines, ends, a);
    DateAnswers(db, lines, ends, a);
    p := Some(ProjectOf(a));
  }

  /** `lines` answer all twelve prompts with the fields of `p`. */
  ghost predicate ProjectRead(db: Db, lines: seq<string>, p: Project) {
    exists ends :: Prompt.Dialogue(lines, NewProjectPrompts(db), ends, ProjectAnswers(p))
  }

  /** `lines` run out before the last of the twelve prompts is answered. */
  ghost predicate ProjectStalled(db: Db, lines: seq<string>) {
    exists ends, a :: Prompt.Stalled(lines, NewProjectPrompts(db), ends, a)
  }

  /** `addNewProject`: the project the answers describe is stored under a
      fresh number, and every person it names exists. Nothing changes when
      the input ends early; the person tables never change. */
  method AddNewProject(db: Db, lines: seq<string>) returns (r: Db, added: Option<(int, Project)>)
    requires Valid(db)
    ensures Valid(r)
    ensures r.architects == db.architects && r.contractors == db.contractors && r.customers == db.customers
    ensures added.None? ==> r == db && ProjectStalled(db, lines)
    ensures added.Some? ==> !Store.HasKey(db.projects.rows, added.value.0)
    ensures added.Some? ==> (r.projects, added.value.0) == Store.Insert(db.projects, added.value.1)
    ensures added.Some? ==> ProjectRead(db, lines, added.value.1)
    ensures added.Some? ==> Referenced(r, added.value.1) && 1 <= |lines| && added.value.1.name == Trim(lines[0])
  {
    var p, ends := ReadNewProject(db, lines);
    if p.None? {
      return db, None;
    }
    var (s, number) := Store.Insert(db.projects, p.value);
    r := db.(projects := s);
    added := Some((number, p.value));
  }

  /** Adding a project whose people exist keeps every project's people in
      existence. */
  lemma InsertKeepsIntegrity(db: Db, p: Project)
    requires Valid(db) && Integrity(db) && Referenced(db, p)
    ensures Integrity(db.(projects := Store.Insert(db.projects, p).0))
  {
    var (s, number) := Store.Insert(db.projects, p);
    IntegrityAfterOneChange(db, db.(projects := s), number);
  }
}
