/** The SQL text the program builds, and the `LIKE` operator its name search
    relies on. Statements are modelled as their text plus their parameter
    list; what the database does with them is modelled by the table
    operations of the other modules. */
module Sql {
  import opened Text

  /** The parameter marker of a prepared statement. */
  const Marker: char := '?'

  /** Items joined with a separator between neighbours and nowhere else. */
  function Join(sep: string, items: seq<string>): string
  {
    if |items| == 0 then ""
    else if |items| == 1 then items[0]
    else items[0] + sep + Join(sep, items[1..])
  }

  /** Items each followed by the separator: what a `StringBuilder` holds
      after appending "item, " once per item. */
  function EachFollowedBy(sep: string, items: seq<string>): string
  {
    if |items| == 0 then "" else items[0] + sep + EachFollowedBy(sep, items[1..])
  }

  /** Dropping the final separator from `EachFollowedBy` leaves `Join`: the
      text has no trailing separator. */
  lemma {:induction false} DropLastSeparator(sep: string, items: seq<string>)
    requires |items| > 0
    ensures |EachFollowedBy(sep, items)| >= |sep|
    ensures EachFollowedBy(sep, items)[..|EachFollowedBy(sep, items)| - |sep|] == Join(sep, items)
  {
    if |items| > 1 {
      DropLastSeparator(sep, items[1..]);
      var tail := EachFollowedBy(sep, items[1..]);
      var whole := EachFollowedBy(sep, items);
      assert whole == items[0] + sep + tail;
      assert whole[..|whole| - |sep|] == items[0] + sep + tail[..|tail| - |sep|];
    }
  }

  /** The number of occurrences of `c` in `s`. */
  function CountChar(s: string, c: char): (n: nat)
    ensures n <= |s|
    ensures c !in s ==> n == 0
  {
    if |s| == 0 then 0 else (if s[0] == c then 1 else 0) + CountChar(s[1..], c)
  }

  lemma {:induction false} CountCharAppend(a: string, b: string, c: char)
    ensures CountChar(a + b, c) == CountChar(a, c) + CountChar(b, c)
  {
    if |a| > 0 {
      assert (a + b)[1..] == a[1..] + b;
      CountCharAppend(a[1..], b, c);
    } else {
      assert a + b == b;
    }
  }

  /** A column name: text that holds no parameter marker. */
  predicate IsName(s: string) {
    Marker !in s
  }

  /** One `column = ?` assignment of a SET list. */
  function Assignment(column: string): string {
    column + " = ?"
  }

  function Assignments(columns: seq<string>): (r: seq<string>)
    ensures |r| == |columns|
    ensures forall i | 0 <= i < |r| :: r[i] == Assignment(columns[i])
  {
    seq(|columns|, i requires 0 <= i < |columns| => Assignment(columns[i]))
  }

  /** The SET list `a = ?, b = ?, ...` over the given columns. */
  function SetList(columns: seq<string>): string {
    Join(", ", Assignments(columns))
  }

  /** `n` markers separated by ", ": the VALUES list of an INSERT. */
  function Markers(n: nat): string {
    Join(", ", seq(n, i => "?"))
  }

  /** Joined texts hold the markers of their items and none of their own
      when the separator holds none. */
  lemma {:induction false} CountJoin(sep: string, items: seq<string>, c: char)
    requires c !in sep
    ensures CountChar(Join(sep, items), c) == SumCounts(items, c)
  {
    if |items| > 1 {
      CountJoin(sep, items[1..], c);
      CountCharAppend(items[0] + sep, Join(sep, items[1..]), c);
      CountCharAppend(items[0], sep, c);
    }
  }

  function SumCounts(items: seq<string>, c: char): nat {
    if |items| == 0 then 0 else CountChar(items[0], c) + SumCounts(items[1..], c)
  }

  /** A SET list over marker-free column names holds one marker per column. */
  lemma {:induction false} SetListMarkers(columns: seq<string>)
    requires forall i | 0 <= i < |columns| :: IsName(columns[i])
    ensures CountChar(SetList(columns), Marker) == |columns|
  {
    CountJoin(", ", Assignments(columns), Marker);
    AssignmentSum(columns);
  }

  lemma {:induction false} AssignmentSum(columns: seq<string>)
    requires forall i | 0 <= i < |columns| :: IsName(columns[i])
    ensures SumCounts(Assignments(columns), Marker) == |columns|
  {
    if |columns| > 0 {
      CountCharAppend(columns[0], " = ?", Marker);
      assert Assignments(columns)[1..] == Assignments(columns[1..]);
      AssignmentSum(columns[1..]);
    }
  }

  /** The VALUES list of `n` markers holds exactly `n` markers. */
  lemma {:induction false} MarkersCount(n: nat)
    ensures CountChar(Markers(n), Marker) == n
  {
    CountJoin(", ", seq(n, i => "?"), Marker);
    OneEach(n);
  }

  lemma {:induction false} OneEach(n: nat)
    ensures SumCounts(seq(n, i => "?"), Marker) == n
  {
    if n > 0 {
      assert seq(n, i => "?")[1..] == seq(n - 1, i => "?");
      OneEach(n - 1);
    }
  }

  /** `INSERT INTO table (c1, c2, ...) VALUES (?, ?, ...)`: one marker per
      listed column. */
  function InsertText(table: string, columns: seq<string>): string {
    "INSERT INTO " + table + " (" + Join(", ", columns) + ") VALUES (" + Markers(|columns|) + ")"
  }

  /** `UPDATE table SET c1 = ?, c2 = ?, ... WHERE key = ?`. */
  function UpdateText(table: string, columns: seq<string>, key: string): string {
    "UPDATE " + table + " SET " + SetList(columns) + " WHERE " + Assignment(key)
  }

  /** `DELETE FROM table WHERE key = ?`. */
  function DeleteText(table: string, key: string): string {
    "DELETE FROM " + table + " WHERE " + Assignment(key)
  }

  /** `SELECT * FROM table WHERE key = ?`. */
  function SelectText(table: string, key: string): string {
    "SELECT * FROM " + table + " WHERE " + Assignment(key)
  }

  /** Text made of pieces without markers and one piece with some holds just
      that piece's markers. */
  lemma {:induction false} CountBetween(a: string, m: string, b: string, c: char)
    requires c !in a && c !in b
    ensures CountChar(a + m + b, c) == CountChar(m, c)
  {
    CountCharAppend(a + m, b, c);
    CountCharAppend(a, m, c);
  }

  /** An INSERT over marker-free names holds one marker per column. */
  lemma {:induction false} InsertMarkers(table: string, columns: seq<string>)
    requires IsName(table)
    requires forall i | 0 <= i < |columns| :: IsName(columns[i])
    ensures CountChar(InsertText(table, columns), Marker) == |columns|
  {
    var names := Join(", ", columns);
    NamesJoinedHaveNoMarker(columns);
    var head := "INSERT INTO " + table + " (" + names + ") VALUES (";
    assert Marker !in head;
    MarkersCount(|columns|);
    CountBetween(head, Markers(|columns|), ")", Marker);
    assert InsertText(table, columns) == head + Markers(|columns|) + ")";
  }

  /** A DELETE or a SELECT by key over marker-free names holds the key's
      marker alone. */
  lemma KeyedMarkers(table: string, key: string)
    requires IsName(table) && IsName(key)
    ensures CountChar(DeleteText(table, key), Marker) == 1
    ensures CountChar(SelectText(table, key), Marker) == 1
  {
    var del := "DELETE FROM " + table + " WHERE " + key + " = ";
    var sel := "SELECT * FROM " + table + " WHERE " + key + " = ";
    assert Marker !in del && Marker !in sel;
    assert CountChar("?", Marker) == 1;
    CountCharAppend(del, "?", Marker);
    CountCharAppend(sel, "?", Marker);
    assert DeleteText(table, key) == del + "?";
    assert SelectText(table, key) == sel + "?";
  }

  /** An UPDATE over marker-free names holds one marker per assigned column
      and one for the key. */
  lemma {:induction false} UpdateMarkers(table: string, columns: seq<string>, key: string)
    requires IsName(table) && IsName(key)
    requires forall i | 0 <= i < |columns| :: IsName(columns[i])
    ensures CountChar(UpdateText(table, columns, key), Marker) == |columns| + 1
  {
    var head := "UPDATE " + table + " SET ";
    var body := head + SetList(columns) + " WHERE ";
    assert Marker !in head;
    SetListMarkers(columns);
    CountBetween(head, SetList(columns), " WHERE ", Marker);
    AssignmentMarker(key);
    CountCharAppend(body, Assignment(key), Marker);
  }

  /** A `key = ?` assignment over a marker-free name holds one marker. */
  lemma AssignmentMarker(key: string)
    requires IsName(key)
    ensures CountChar(Assignment(key), Marker) == 1
  {
    assert CountChar("?", Marker) == 1;
    CountCharAppend(key + " = ", "?", Marker);
    assert Assignment(key) == key + " = " + "?";
  }

  /** A SET list built by appending "column = ?, " per column, with the
      last two characters dropped and the WHERE clause appended, is the
      UPDATE statement over those columns. */
  lemma {:induction false} BuiltUpdateText(table: string, columns: seq<string>, key: string)
    requires |columns| > 0
    ensures var t := "UPDATE " + table + " SET " + EachFollowedBy(", ", Assignments(columns));
      |t| >= 2 && t[..|t| - 2] + " WHERE " + Assignment(key) == UpdateText(table, columns, key)
  {
    var items := Assignments(columns);
    DropLastSeparator(", ", items);
    var head := "UPDATE " + table + " SET ";
    var body := EachFollowedBy(", ", items);
    var t := head + body;
    assert t[..|t| - 2] == head + body[..|body| - 2];
  }

  /** Names joined by ", " hold no marker. */
  lemma {:induction false} NamesJoinedHaveNoMarker(columns: seq<string>)
    requires forall i | 0 <= i < |columns| :: IsName(columns[i])
    ensures Marker !in Join(", ", columns)
  {
    if |columns| > 1 {
      NamesJoinedHaveNoMarker(columns[1..]);
      assert IsName(columns[0]);
    }
  }

  /** MySQL's `LIKE`, case-sensitively: `%` matches any run of characters,
      `_` exactly one, and a backslash makes the next character literal. */
  function Like(pattern: string, s: string): bool
    decreases |pattern| + |s|
  {
    if |pattern| == 0 then |s| == 0
    else if pattern[0] == '%' then Like(pattern[1..], s) || (|s| > 0 && Like(pattern, s[1..]))
    else if pattern[0] == '_' then |s| > 0 && Like(pattern[1..], s[1..])
    else if pattern[0] == '\\' && |pattern| >= 2 then
      |s| > 0 && s[0] == pattern[1] && Like(pattern[2..], s[1..])
    else |s| > 0 && s[0] == pattern[0] && Like(pattern[1..], s[1..])
  }

  /** Text in which `LIKE` sees no special character. */
  predicate IsPlain(s: string) {
    '%' !in s && '_' !in s && '\\' !in s
  }

  /** `%` alone matches every string. */
  lemma {:induction false} PercentMatchesAll(s: string)
    ensures Like("%", s)
  {
    if |s| > 0 {
      PercentMatchesAll(s[1..]);
    }
  }

  /** A plain word followed by `%` matches exactly the strings it begins. */
  lemma {:induction false} PlainThenPercent(w: string, s: string)
    requires IsPlain(w)
    ensures Like(w + "%", s) <==> |w| <= |s| && s[..|w|] == w
  {
    if |w| == 0 {
      assert w + "%" == "%";
      PercentMatchesAll(s);
    } else {
      assert (w + "%")[1..] == w[1..] + "%";
      PlainThenPercent(w[1..], if |s| > 0 then s[1..] else s);
      if |s| > 0 && |w| <= |s| {
        assert s[..|w|] == [s[0]] + s[1..][..|w| - 1];
      }
    }
  }

  /** A leading `%` lets the rest of the pattern match any suffix. */
  lemma {:induction false} LeadingPercent(q: string, s: string)
    ensures Like("%" + q, s) <==> exists i | 0 <= i <= |s| :: Like(q, s[i..])
  {
    var p := "%" + q;
    assert p[1..] == q;
    if |s| == 0 {
      assert s[0..] == s;
    } else {
      LeadingPercent(q, s[1..]);
      if Like(p, s) {
        if !Like(q, s) {
          var k :| 0 <= k <= |s[1..]| && Like(q, s[1..][k..]);
          assert s[1..][k..] == s[k + 1..];
        } else {
          assert s[0..] == s;
        }
      }
      if exists i | 0 <= i <= |s| :: Like(q, s[i..]) {
        var i :| 0 <= i <= |s| && Like(q, s[i..]);
        if i == 0 {
          assert s[0..] == s;
        } else {
          assert s[1..][i - 1..] == s[i..];
        }
      }
    }
  }

  /** The pattern `%name%` over plain `name` is a substring test. */
  lemma SubstringPattern(name: string, s: string)
    requires IsPlain(name)
    ensures Like("%" + name + "%", s) <==> Contains(s, name)
  {
    assert "%" + name + "%" == "%" + (name + "%");
    LeadingPercent(name + "%", s);
    forall i | 0 <= i <= |s|
      ensures Like(name + "%", s[i..]) <==> OccursAt(s, name, i)
    {
      PlainThenPercent(name, s[i..]);
      if |name| <= |s[i..]| {
        assert s[i..][..|name|] == s[i..i + |name|];
      }
    }
  }
}
