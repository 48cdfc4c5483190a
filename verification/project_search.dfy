/** The project queries behind the search menus: list all projects, the
    incomplete ones, the ones past their deadline, and search by number or
    by a fragment of the name. Each query is a WHERE clause over the
    `projects` table; the rows come back in key order. */
module ProjectSearch {
  import opened Wrappers
  import opened Text
  import opened Sql
  import opened Dates
  import Store
  import opened Projects

  type Row = (int, Project)

  /** What a search shows: the "not found" message, or the rows. */
  datatype Report = NoMatch | Matches(rows: seq<Row>)

  /** A search prints its message exactly when the query returns nothing. */
  function Show(rows: seq<Row>): (r: Report)
    ensures r == NoMatch <==> |rows| == 0
    ensures r.Matches? ==> r.rows == rows
  {
    if |rows| == 0 then NoMatch else Matches(rows)
  }

  /** `SELECT * FROM Projects`. */
  function ListAll(s: Projects): (r: seq<Row>)
    requires Store.Valid(s)
    ensures Store.Ascending(r)
    ensures forall k :: Store.Lookup(r, k) == Store.Lookup(s.rows, k)
  {
    s.rows
  }

  /** `WHERE finalised = 0`. */
  predicate Incomplete(row: Row) {
    !row.1.finalised
  }

  /** `WHERE deadline_date < CURDATE() AND completion_date IS NULL`, with the
      current date as `today`. */
  predicate PastDeadline(today: Date, row: Row) {
    Before(row.1.deadline, today) && row.1.completion.None?
  }

  /** `WHERE project_name LIKE ?` bound to `"%" + name + "%"`. */
  predicate NameMatches(name: string, row: Row) {
    Like("%" + name + "%", row.1.name)
  }

  function ListIncomplete(s: Projects): (r: seq<Row>)
    requires Store.Valid(s)
    ensures Store.Ascending(r)
    ensures forall i | 0 <= i < |r| :: r[i] in s.rows && !r[i].1.finalised
    ensures forall i | 0 <= i < |s.rows| && !s.rows[i].1.finalised :: s.rows[i] in r
  {
    Store.WhereAscending(s.rows, Incomplete);
    Store.Where(s.rows, Incomplete)
  }

  function ListPastDeadline(s: Projects, today: Date): (r: seq<Row>)
    requires Store.Valid(s)
    ensures Store.Ascending(r)
    ensures forall i | 0 <= i < |r| ::
              r[i] in s.rows && Before(r[i].1.deadline, today) && r[i].1.completion.None?
    ensures forall i | 0 <= i < |s.rows| && Before(s.rows[i].1.deadline, today) && s.rows[i].1.completion.None? ::
              s.rows[i] in r
  {
    var keep := row => PastDeadline(today, row);
    Store.WhereAscending(s.rows, keep);
    Store.Where(s.rows, keep)
  }

  /** A project with a completion date, or one whose deadline is today or
      later, is never listed as past its deadline, however it is finalised. */
  lemma PastDeadlineExcludes(s: Projects, today: Date, k: int)
    requires Store.Valid(s) && Store.HasKey(s.rows, k)
    requires var p := Store.Lookup(s.rows, k).value; p.completion.Some? || !Before(p.deadline, today)
    ensures Store.Lookup(ListPastDeadline(s, today), k).None?
  {
    Store.LookupWhere(s.rows, row => PastDeadline(today, row), k);
  }

  /** A finalised project is never listed as incomplete, and an unfinalised
      one always is, under its own number. */
  lemma IncompleteExactly(s: Projects, k: int)
    requires Store.Valid(s) && Store.HasKey(s.rows, k)
    ensures Store.Lookup(ListIncomplete(s), k)
         == if Store.Lookup(s.rows, k).value.finalised then None else Store.Lookup(s.rows, k)
  {
    Store.LookupWhere(s.rows, Incomplete, k);
  }

  /** `searchProjectByNumber`: the typed text is bound as a string and
      compared with the integer key; a text that is not a number matches no
      project. */
  function SearchByNumber(s: Projects, text: string): (r: Report)
    requires Store.Valid(s)
    ensures r == NoMatch <==> ParseInt(text).None? || !Store.HasKey(s.rows, ParseInt(text).value)
    ensures r.Matches? ==> r.rows == [(ParseInt(text).value, Store.Lookup(s.rows, ParseInt(text).value).value)]
  {
    match ParseInt(text)
    case None => NoMatch
    case Some(n) =>
      var rows := Store.Where(s.rows, (row: Row) => row.0 == n);
      Store.WhereKeyIs(s.rows, n, (row: Row) => row.0 == n);
      Show(rows)
  }

  /** `searchProjectByName`. */
  function SearchByName(s: Projects, name: string): (r: Report)
    requires Store.Valid(s)
    ensures r == NoMatch <==> forall i | 0 <= i < |s.rows| :: !NameMatches(name, s.rows[i])
    ensures r.Matches? ==> Store.Ascending(r.rows)
    ensures r.Matches? ==> forall i | 0 <= i < |r.rows| :: r.rows[i] in s.rows && NameMatches(name, r.rows[i])
    ensures r.Matches? ==> forall i | 0 <= i < |s.rows| && NameMatches(name, s.rows[i]) :: s.rows[i] in r.rows
  {
    var rows := Store.Where(s.rows, row => NameMatches(name, row));
    Store.WhereAscending(s.rows, row => NameMatches(name, row));
    if |rows| == 0 then NoMatch
    else
      assert rows[0] in s.rows;
      Matches(rows)
  }

  /** A name without wildcards finds exactly the projects whose name
      contains it. */
  lemma SearchByPlainName(s: Projects, name: string, i: int)
    requires Store.Valid(s) && IsPlain(name) && 0 <= i < |s.rows|
    ensures SearchByName(s, name).Matches? && s.rows[i] in SearchByName(s, name).rows
        <==> Contains(s.rows[i].1.name, name)
  {
    SubstringPattern(name, s.rows[i].1.name);
  }

  /** An empty line finds every project, so it is the same as listing all
      of them. */
  lemma EmptyNameFindsAll(s: Projects)
    requires Store.Valid(s)
    ensures SearchByName(s, "") == Show(ListAll(s))
  {
    forall i | 0 <= i < |s.rows| ensures NameMatches("", s.rows[i]) {
      PercentMatchesAll(s.rows[i].1.name);
      assert "%" + "" + "%" == "%%";
      LeadingPercent("%", s.rows[i].1.name);
      assert Like("%", s.rows[i].1.name[0..]);
    }
    Store.WhereKeepsAll(s.rows, row => NameMatches("", row));
  }

  /** The name is not escaped, so a typed `_` is a wildcard: it finds every
      project whose name is not empty. */
  lemma UnderscoreFindsAnyName(s: Projects, i: int)
    requires Store.Valid(s) && 0 <= i < |s.rows|
    ensures NameMatches("_", s.rows[i]) <==> |s.rows[i].1.name| > 0
  {
    var n := s.rows[i].1.name;
    assert "%" + "_" + "%" == "%_%";
    LeadingPercent("_%", n);
    if |n| > 0 {
      PercentMatchesAll(n[1..]);
      assert Like("_%", n[0..]);
    }
    forall j | 0 <= j <= |n| && Like("_%", n[j..]) ensures |n| > 0 {
    }
  }

  /** Searching by the canonical spelling of an existing project number
      shows exactly that project. */
  lemma SearchByOwnNumber(s: Projects, k: int)
    requires Store.Valid(s) && Store.HasKey(s.rows, k) && InInt32(k)
    ensures SearchByNumber(s, IntToString(k)) == Matches([(k, Store.Lookup(s.rows, k).value)])
  {
    ParseIntOfIntToString(k);
  }
}
