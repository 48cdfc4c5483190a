# PoisePMS in Dafny

A model of PoisePMS, a console record keeper for a small architecture
business. It keeps four tables: `projects`, `architect`, `contractor` and
`customer`. An operator moves through text menus to add, update, delete,
search and list rows. Every answer typed at a prompt is checked line by line,
and a rejected line makes the program ask again.

The model has these parts:

- `Text`, `Dates` and `Money`: the Java library functions the prompts lean
  on. These are `Integer.parseInt`, `String.trim`, `String.toLowerCase`,
  `Boolean.parseBoolean`, `java.sql.Date.valueOf` and `new BigDecimal(String)`.
- `Sql`: how statements are put together (markers, SET lists, the text built
  for a partial update) and SQL `LIKE` matching.
- `Prompt`: the re-prompt loop, written once. Each validator returns `None`
  for a line the program answers with "try again".
- `Store`: a table. It is an ordered list of `(key, row)` pairs plus the next
  key `AUTO_INCREMENT` would hand out. It supports insert, update, delete,
  lookup and WHERE filtering.
- `People`: the three person tables. The program handles them with three
  copies of one class: `Architect.java`, `Contractor.java` and
  `Customer.java`.
- `Projects`: the project row, its twelve columns, the INSERT, and the
  partial UPDATE that `updateProjectDetails` builds.
- `Database`: the four tables together, and the foreign-key picture between
  them.
- `Menu`: the menus of `Main.java` and the choice prompt they share.
- `ProjectSearch`, `ProjectEditing` and `NewProject`: the search queries, the
  update and delete flows, and the add flow.

The console, the JDBC connection and the clock stay outside the model:

- What the operator types is a parameter. It is a sequence of lines, or of
  numbers where the program calls `Scanner.nextInt`.
- The database is a value passed in and returned.
- `CURDATE()` is a `today` parameter.

## Model

| member | source | states |
|---|---|---|
| Text.ParseInt | Main.java:375 | A result is always a 32-bit value. The empty line and text that is not an optional sign followed by digits are rejected. |
| Text.ParseIntOfIntToString | Main.java:375 | Every 32-bit integer written in its usual decimal form parses back to itself. |
| Text.Trim | AddProject.java:74 | The trimmed text is a contiguous piece of the input, and every character cut from either end is at or below the space. The result neither starts nor ends with such a character. |
| Text.TrimIdempotent | AddProject.java:74 | Trimming twice gives the same result as trimming once. |
| Text.ToLower | AddProject.java:146 | The result has the input's length, with each ASCII letter A-Z lowered and every other character kept. |
| Text.ParseBoolean | Project.java:155 | True exactly when the text, lower-cased, is "true". |
| Sql.InsertMarkers | Architect.java:83 | An INSERT over n plain column names has exactly n `?` markers. |
| Sql.UpdateMarkers | Architect.java:130 | An UPDATE of n columns keyed by one more has n + 1 markers. |
| Sql.BuiltUpdateText | Project.java:160-162 | Dropping the trailing ", " of the appended assignments and adding the WHERE clause gives the assignments joined by ", ". |
| Sql.SubstringPattern | ProjectSearch.java:61 | For a name without wildcards, `LIKE '%name%'` holds exactly when the text contains the name. |
| Sql.LeadingPercent | ProjectSearch.java:61 | A leading `%` matches when the rest of the pattern matches some suffix. |
| Sql.PercentMatchesAll | ProjectSearch.java:61 | The pattern `%` matches every text. |
| Dates.ParseDate | Project.java:302 | Every accepted date is a real calendar date with a year in 0..9999, read from 8 to 10 characters. |
| Dates.RollOver | Project.java:302 | A day past the end of its month moves into the next month. The result is always a calendar date. |
| Dates.ParseFormattedDate | Project.java:302 | Every date written as yyyy-mm-dd reads back as that date. |
| Dates.BeforeIsStrictTotal | ProjectSearch.java:122 | Of two different dates, exactly one is earlier. |
| Money.ParseDecimal | Project.java:280 | A negative amount comes from a leading minus. The scale is less than the text length. Text starting with anything but a digit, sign or point is rejected. |
| Money.ParseFormattedDecimal | Project.java:280 | Every decimal written in plain notation reads back as itself, scale included. |
| Prompt.ReadUntil | Main.java:366-386 | Returns the value of the first accepted line and how many lines were read. Every earlier line was rejected. Running out of input returns nothing. |
| Prompt.FirstAcceptedUnique | Main.java:366-386 | Only one line can be the first accepted one. |
| Prompt.AnsweredUnique | AddProject.java:52-62 | A prompt that starts at a given line is answered by one line only, with one value. |
| Prompt.StepsAgree | AddProject.java:24-35 | Two readings of the same prompts over the same lines agree, answer for answer and line for line, as far as both got. |
| Prompt.DialogueUnique | AddProject.java:24-35 | The lines fix the answers to a run of prompts: there is only one complete reading. |
| Prompt.DialogueAnswersEach | AddProject.java:24-35 | When a complete reading exists, every prompt reached finds a line it accepts further on. |
| Prompt.DialogueAnswer | AddProject.java:24-35 | Each answer of a complete reading is what its prompt's validator made of the line that ended that prompt. |
| Prompt.Converse | Project.java:50-63 | Asks the prompts in order, each on the lines after the previous answer. It returns one answer per prompt, or stops at the first prompt the input ran out on. |
| Store.Insert | Architect.java:80-102 | The row gets a fresh key and can be looked up under it. Every other key looks up as before. |
| Store.Update | Architect.java:130-136 | Only the targeted row changes, to f of its old value. The set of keys stays the same. |
| Store.Delete | Project.java:202-213 | The key no longer looks anything up. Every other key looks up as before. |
| Store.Where | ProjectSearch.java:101-116 | The result holds exactly the rows that pass the condition. |
| Store.LookupWhere | ProjectSearch.java:101-116 | Looking up a key in the filtered rows finds its row when that row passes the condition, and nothing otherwise. |
| Store.WhereKeepsAll | ProjectSearch.java:80-95 | A condition every row meets selects the whole table. |
| Store.SelectById | ProjectSearch.java:30-48 | Returns at most one row, and none exactly when the key is absent. |
| Store.WhereKeyIs | ProjectSearch.java:31-35 | Filtering on "key = k" returns the row under k, or nothing. |
| Store.InsertThenSelect | Architect.java:80-102 | Selecting the key an insert handed out returns the inserted row. |
| Store.DeleteThenSelect | Architect.java:182-185 | Selecting a deleted key returns nothing. |
| People.GatherParamsRoundTrip | Architect.java:23-55 | The six answers become statement parameters 1..6 unchanged and in order, and those parameters determine the person. |
| People.ParamsBindColumns | Architect.java:48-55 | Parameter i carries the field stored in column i of the statements. |
| People.StatementMarkers | Architect.java:130-134 | The INSERT has one marker per field. The UPDATE has one per field plus one for the id. The DELETE and the SELECT have one marker each, for the id. |
| Sql.KeyedMarkers | Architect.java:182 | A DELETE or SELECT by key over plain names holds exactly one marker. |
| People.TableNameInjective | Project.java:252 | The three tables have different names. |
| People.ChooseId | Architect.java:113-126 | 0 goes back to the menu. An existing id is taken. Any other number is asked again. |
| People.Overwrite | Architect.java:128-136 | The chosen person's row becomes the new details. Every other row is unchanged. |
| People.Add | Architect.java:80-102 | The person is stored under a new id, and no other row changes. |
| People.UpdatePerson | Architect.java:109-154 | The answer that ends the id prompt decides the result. 0 leaves the table as it is. An existing id overwrites that row. If no answer is accepted, nothing changes. |
| People.DeletePerson | Architect.java:161-206 | Same as the update, except that an existing id removes its row. |
| People.SearchById | Architect.java:213-232 | "Not found" exactly when the id is absent. Otherwise shows the one row under that id. |
| People.SearchByText | Architect.java:213-222 | Text that is not a number finds nobody. A number finds the row under that id. |
| People.ListAll | Architect.java:237-254 | "No architects found" exactly for an empty table. Otherwise lists the rows in key order. |
| Projects.GetFitsAndDetermines | AddProject.java:204-215 | Every column holds a value of its SQL type, and the twelve columns determine the project. |
| Projects.InsertBindsColumns | AddProject.java:204-215 | Parameter i of the insert is the project's value in column i. |
| Projects.InsertStoresRow | AddProject.java:198-219 | Reading the twelve bound values back gives the project that was inserted. |
| Projects.StoredRowBinds | AddProject.java:204-215 | Any twelve well-typed values are the parameters of the project they describe. |
| Projects.InsertSqlMarkers | AddProject.java:201-202 | The INSERT text has exactly one marker per bound value. |
| Projects.NewValue | Project.java:147-158 | A supplied column's new value has the column's type and is never NULL. |
| Projects.SuppliedColumnsExactly | Project.java:147-158 | The SET list names exactly the supplied columns, each once, in table order. |
| Projects.AppendSupplied | Project.java:147-158 | After the conditional appends, the text has one "column = ?, " per supplied column, the parameters are their values, and the flag records whether there was any. |
| Projects.BuildUpdate | Project.java:137-179 | No statement exactly when nothing was supplied. Otherwise the statement sets exactly the supplied columns, has one marker per parameter, and binds the project number last. |
| Projects.UpdateStatementMarkers | Project.java:160-163 | The built UPDATE has one marker per parameter. |
| Projects.ApplyUpdateEffect | Project.java:137-179 | Each supplied column takes its new value. Every other column keeps its old value. |
| Projects.UpdateProjectRow | Project.java:165-169 | Only the numbered project changes, as ApplyUpdateEffect says. |
| Projects.UpdateKeepsCompletion | Project.java:154 | A completion date once set is never cleared by an update. |
| Projects.UpdateFinalised | Project.java:155 | A non-empty answer sets finalised exactly when it reads "true" in any letter case. |
| Projects.FinalisedExamples | Project.java:155 | "yes" and " true" mean false. "TRUE" means true. |
| Database.SentinelsNeverExist | Project.java:98-116 | No table holds id 0 or -1, so the sentinels can never be taken for a real id. |
| Database.AddPerson | Architect.java:80-102 | Only the chosen person table gains a row. Projects and the other tables are unchanged. |
| Database.UpdatePersonIn | Architect.java:109-154 | The person update touches only its own table. |
| Database.DeletePersonIn | Architect.java:161-206 | The person delete touches only its own table. |
| Database.DeleteLeavesDangling | Architect.java:182-185 | Deleting a person a project names leaves that project in place, pointing at a missing id. |
| Menu.ValidChoice | Main.java:365-387 | An accepted choice lies in [min, max] and is the line's parsed value. A line of two or more zeros is rejected, and so is one that does not parse. |
| Menu.ChoiceComplete | Main.java:375-380 | Every option on a menu, typed in its usual form, is accepted as that option. |
| Menu.LeadingZeros | Main.java:371-375 | "00" is rejected, "01" selects option 1, and "8" is out of the main menu's range. |
| Menu.GetValidChoice | Main.java:365-387 | The choice returned is the first accepted line's value, in range. If no line is accepted, every line was rejected. |
| Menu.Dispatch | Main.java:32-63 | The default branch is reached exactly for numbers outside 0..max. 0 is exactly the way out. An option that opens a menu opens one of its sub-menus. |
| Menu.DispatchInjective | Main.java:32-63 | Different options of one menu do different things. |
| Menu.ValidChoiceNeverInvalid | Main.java:61-62 | A choice that passed the prompt never reaches the default branch. |
| Menu.WellFormedDepth | Main.java:84-153 | Menus nest at most three deep. |
| Menu.Next | Main.java:22-65 | Choosing keeps the menu stack well formed. The program exits exactly when 0 is chosen on the main menu. An action or an invalid number keeps the same menu. An option that opens a menu pushes it. 0 on a sub-menu pops back to its parent. |
| Menu.EnterThenLeave | Main.java:112-113 | Leaving a sub-menu returns to the menu it was opened from. |
| Menu.Run | Main.java:22-65 | A run of choices starts at most one action per choice and keeps the stack well formed. |
| Menu.RunOne | Main.java:92-117 | One choice starts the action it selects on the top menu, and leaves the stack as Next says. |
| Menu.RunAppend | Main.java:84-153 | Running two batches of choices is running the first and then the second from where the first left off. After an exit, nothing more is read. |
| Menu.RunRecords | Main.java:134-151 | An action offered by the menu open when its choice is typed is started, right after the actions of the earlier choices. |
| Menu.RunOffers | Main.java:32-63 | Every action started was selected by one choice typed, on the menu that was open when that choice was typed. |
| Menu.RunExits | Main.java:57-60 | The program only ends after a 0 typed at a point where the main menu alone was open. |
| ProjectSearch.Show | ProjectSearch.java:37-44 | The "not found" message is shown exactly when the query returned no rows. |
| ProjectSearch.ListAll | ProjectSearch.java:80-95 | Lists every project in key order. |
| ProjectSearch.ListIncomplete | ProjectSearch.java:101-116 | Lists exactly the unfinalised projects, in key order. |
| ProjectSearch.IncompleteExactly | ProjectSearch.java:102 | A finalised project is never listed. An unfinalised one is listed under its own number. |
| ProjectSearch.ListPastDeadline | ProjectSearch.java:121-136 | Lists exactly the projects whose deadline is before today and that have no completion date. |
| ProjectSearch.PastDeadlineExcludes | ProjectSearch.java:122 | A completed project, or one due today or later, is never listed as past its deadline. |
| ProjectSearch.SearchByNumber | ProjectSearch.java:30-48 | "Not found" exactly when the text is not a number or no project has it. Otherwise shows that one project. |
| ProjectSearch.SearchByOwnNumber | ProjectSearch.java:30-48 | Searching for an existing project's number shows exactly that project. |
| ProjectSearch.SearchByName | ProjectSearch.java:56-74 | "Not found" exactly when no name matches `%name%`. Otherwise exactly the matching projects are shown, in key order. |
| ProjectSearch.SearchByPlainName | ProjectSearch.java:61 | A name without wildcards finds exactly the projects whose name contains it. |
| ProjectSearch.EmptyNameFindsAll | ProjectSearch.java:61 | An empty name finds every project, the same as listing them all. |
| ProjectSearch.UnderscoreFindsAnyName | ProjectSearch.java:61 | Since the name is not escaped, "_" finds every project with a non-empty name. |
| ProjectEditing.ChooseProject | Project.java:26-45 | Exactly "0" goes back. An existing project number is taken. Anything else is asked again. |
| ProjectEditing.OtherZerosAskAgain | Project.java:28-45 | "00" and "-0" do not go back. They parse to 0, which no project has, so they are asked again. |
| ProjectEditing.ReadAmount | Project.java:271-284 | The empty line keeps the current value. Other text is a decimal or is asked again. |
| ProjectEditing.ReadDate | Project.java:293-306 | The empty line keeps the current value. Other text is a calendar date or is asked again. |
| ProjectEditing.ReadBack | Project.java:271-306 | Values written in plain form read back as themselves. A line holding only a blank is asked again. |
| ProjectEditing.ReadId | Project.java:98-116 | The empty line keeps the current id (-1). Other text must be an existing id of the table or is asked again. |
| ProjectEditing.OnlyBlankKeepsId | Project.java:102-109 | The "keep" sentinel comes only from the empty line. Typing "-1" is asked again. |
| ProjectEditing.RawTakesNextLine | Project.java:84-87 | A free-text prompt is answered by the very next line. |
| ProjectEditing.UpdateDialogueShape | Project.java:50-63 | The twelve answers of the update dialogue are the fields of a request, in prompt order, and every id answered is "keep" or an existing id. |
| ProjectEditing.RequestRoundTrip | Project.java:50-63 | Reading a request out of its answers and writing it back gives the same answers. |
| ProjectEditing.ReadUpdateRequest | Project.java:48-63 | The request's fields are the answers of the twelve prompts in order: the text fields and `finalised` are lines as typed, amounts and dates are parsed or kept, ids are checked. Input that runs out stops at the prompt still asking. |
| ProjectEditing.UpdateProject | Project.java:23-75 | The first accepted number line picks the project, and the lines after it answer the detail prompts. Only that project changes, as those answers say. Person tables never change. 0 first, or input that runs out, changes nothing. |
| ProjectEditing.UpdateKeepsReferences | Project.java:60-63 | After an update, each person reference is either the old one or one that was checked to exist. |
| ProjectEditing.UpdateKeepsIntegrity | Project.java:60-66 | If every project named existing people before the update, every project still does afterwards. |
| ProjectEditing.DeleteProject | Project.java:186-221 | The chosen project is removed and nothing else changes. Nothing is deleted exactly when the deciding answer is "0". |
| ProjectEditing.DeleteKeepsIntegrity | Project.java:202-213 | Removing a project never leaves another one naming a missing person. |
| NewProject.RequiredText | AddProject.java:52-62 | Any line but the empty one is taken as typed. |
| NewProject.BlankIsNotEmpty | AddProject.java:57 | A line holding only a blank passes as a required value. |
| NewProject.StrictBoolean | AddProject.java:143-152 | Accepts exactly "true" and "false" after trimming and lower-casing, with that meaning. |
| NewProject.BooleanMeaning | AddProject.java:146-148 | An accepted answer means what `Boolean.parseBoolean` reads in the trimmed line. |
| NewProject.BooleanExamples | AddProject.java:146-148 | " true" means true here but false in the update. "yes" is asked again. |
| NewProject.ExistingId | AddProject.java:163-178 | Accepts exactly the lines that parse to an id existing in the table. |
| NewProject.NoSentinelIds | AddProject.java:163-178 | The empty line, "0" and "-1" never get past the insert's id prompt. |
| NewProject.RequiredAnswer | AddProject.java:52-62 | A required prompt takes exactly the non-empty lines, as typed. |
| NewProject.FeeAnswer | AddProject.java:84-94 | An amount prompt takes exactly the lines that read as a decimal, with that value. |
| NewProject.DeadlineAnswer | AddProject.java:103-113 | The deadline prompt takes exactly the lines that read as a date, and that date is a calendar date. |
| ProjectEditing.DateAnswer | AddProject.java:122-134 | An optional date prompt takes the empty line as no date, and otherwise exactly the lines that read as a date. The add flow's completion date and the update flow's two dates share it. |
| NewProject.FinalisedAnswer | AddProject.java:143-152 | The finalised prompt takes exactly "true" and "false", trimmed and in any case, with that meaning. |
| NewProject.PersonAnswer | AddProject.java:163-178 | An id prompt takes exactly the lines naming an existing id of its table. |
| NewProject.ProjectRoundTrip | AddProject.java:37-38 | Reading a project out of its twelve answers and writing it back gives the same answers. |
| NewProject.NewProjectDialogueShape | AddProject.java:24-35 | The twelve answers describe a project, in prompt order, whose people exist, and its name is the trimmed first line. |
| NewProject.ReadNewProject | AddProject.java:19-35 | The project's fields are the answers of the twelve prompts in order. The name is the trimmed first line, the required text is non-empty, the dates are real dates, and every person named exists. Input that runs out stops at the prompt still asking. |
| NewProject.AddNewProject | AddProject.java:19-43 | The project the lines answer is inserted under a fresh number and names only existing people. Person tables never change. Input that runs out before the last prompt changes nothing. |
| NewProject.InsertKeepsIntegrity | AddProject.java:33-37 | If every project named existing people before the insert, every project still does afterwards. |

## Left out

- DatabaseConnection.java is not part of this model. Connections, credentials and JDBC are outside it.
- SQLException paths are not modelled. Statements are taken to succeed. When `idExists` or `doesProjectNumberExist` hit a database error they return false, which would make the prompt ask again; the model does not include this.
- Foreign-key constraints in the database schema are not modelled. If the schema declares them, deleting a referenced person fails in the database, and the person delete loop reports the error and asks again. The model assumes no such constraint, which matches the application code.
- Display formatting is not modelled: `displayProjectDetails`, `displayArchitectDetails`, the money printed as `double`, blank lines and messages. The model stops at which rows are shown.
- `Scanner.nextInt` in the person update and delete prompts is modelled as already-read integers. Non-numeric input there throws `InputMismatchException`, and that path is not modelled.
- Running out of input, where `Scanner` throws `NoSuchElementException`, is modelled as the operation returning without changing anything.
- People.SearchByText: MySQL converts the typed text to a number with its own lenient rules (leading blanks, a numeric prefix, decimals). The model uses `Integer.parseInt` instead.
- ProjectSearch.SearchByNumber: the same approximation of MySQL's text-to-number conversion.
- Text.ParseInt: covers ASCII digits only. Java also accepts other Unicode decimal digits.
- Text.ToLower: lowers ASCII A-Z only. Java's `toLowerCase` also lowers other letters and can change the length ("İ" becomes two characters). The comparisons with "true" and "false" come out the same, since no other character lowers onto their letters.
- Money.ParseDecimal: exponent notation such as "1E3" is not modelled and is rejected.
- Money.ParseDecimal: accepts ASCII digits only. `new BigDecimal(String)` also accepts any other character that `Character.isDigit` calls a digit, such as Arabic-Indic digits; the model asks again for such text.
- Dates.ParseDate: uses the Gregorian calendar for all years. Java's calendar before 1582 differs.
- Sql.SubstringPattern: LIKE is matched case-sensitively, character by character. MySQL's default collations compare case-insensitively, so the database also finds names that differ only in letter case; the model does not.
- ProjectSearch.SearchByName: inherits the case-sensitive LIKE of Sql.SubstringPattern, as do ProjectSearch.SearchByPlainName and ProjectSearch.UnderscoreFindsAnyName.
- ProjectSearch.ListPastDeadline: the current date is a parameter instead of `CURDATE()`.
- People.StatementMarkers: the person statements are built from the column list. Their text is not proved equal, character by character, to the literals in the source.
- The three id prompts for the person tables take `int` values. The 32-bit range of `nextInt` is not modelled.
