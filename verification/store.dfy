/** A database table with an integer primary key assigned by the database
    (MySQL's AUTO_INCREMENT), as an immutable value: the rows in key order,
    which is the order in which the database lists a table without an ORDER
    BY, and the next key the database will hand out. Every table of the
    program is one of these. */
module Store {
  import opened Wrappers

  datatype Store<T> = Store(rows: seq<(int, T)>, nextId: int)

  /** Keys strictly increase along a list of rows; in particular no key
      occurs twice. */
  predicate Ascending<T>(rows: seq<(int, T)>) {
    forall i, j | 0 <= i < j < |rows| :: rows[i].0 < rows[j].0
  }

  /** Some row carries key `k`. */
  predicate HasKey<T>(rows: seq<(int, T)>, k: int) {
    exists i | 0 <= i < |rows| :: rows[i].0 == k
  }

  /** Keys start at 1, are unique, and are all below the next one to assign. */
  predicate Valid<T>(s: Store<T>) {
    1 <= s.nextId
    && Ascending(s.rows)
    && forall i | 0 <= i < |s.rows| :: 1 <= s.rows[i].0 < s.nextId
  }

  function Empty<T>(): (s: Store<T>)
    ensures Valid(s) && |s.rows| == 0
  {
    Store([], 1)
  }

  /** The row stored under key `k`, if any (the first one, which under
      `Ascending` is the only one). */
  function Lookup<T>(rows: seq<(int, T)>, k: int): (r: Option<T>)
    ensures r.Some? <==> HasKey(rows, k)
    ensures r.Some? ==> (k, r.value) in rows
  {
    if |rows| == 0 then None
    else if rows[0].0 == k then Some(rows[0].1)
    else
      var r := Lookup(rows[1..], k);
      assert HasKey(rows, k) ==> rows[0].0 == k || HasKey(rows[1..], k) by {
        if HasKey(rows, k) {
          var i :| 0 <= i < |rows| && rows[i].0 == k;
          if i > 0 { assert rows[1..][i - 1].0 == k; }
        }
      }
      assert HasKey(rows[1..], k) ==> HasKey(rows, k) by {
        if HasKey(rows[1..], k) {
          var i :| 0 <= i < |rows[1..]| && rows[1..][i].0 == k;
          assert rows[i + 1].0 == k;
        }
      }
      r
  }

  /** With unique keys every stored row is what a lookup of its key finds. */
  lemma {:induction false} LookupFindsRow<T>(rows: seq<(int, T)>, i: int)
    requires Ascending(rows) && 0 <= i < |rows|
    ensures Lookup(rows, rows[i].0) == Some(rows[i].1)
  {
    if i > 0 {
      assert rows[0].0 < rows[i].0;
      LookupFindsRow(rows[1..], i - 1);
    }
  }

  /** A row appended after the others is found under its key unless an
      earlier row already holds that key. */
  lemma {:induction false} LookupAppend<T>(rows: seq<(int, T)>, x: (int, T), k: int)
    ensures Lookup(rows + [x], k)
         == if HasKey(rows, k) then Lookup(rows, k) else if x.0 == k then Some(x.1) else None
  {
    if |rows| > 0 {
      assert (rows + [x])[1..] == rows[1..] + [x];
      LookupAppend(rows[1..], x, k);
    } else {
      assert rows + [x] == [x];
    }
  }

  /** INSERT: the database assigns the next key and stores the row under it;
      the new row lists last. Returns the new table and the assigned key. */
  function Insert<T>(s: Store<T>, row: T): (r: (Store<T>, int))
    requires Valid(s)
    ensures Valid(r.0) && r.0.nextId == r.1 + 1
    ensures r.1 >= 1 && !HasKey(s.rows, r.1)
    ensures |r.0.rows| == |s.rows| + 1 && r.0.rows[|s.rows|] == (r.1, row)
    ensures forall i | 0 <= i < |s.rows| :: r.0.rows[i] == s.rows[i] && s.rows[i].0 < r.1
    ensures Lookup(r.0.rows, r.1) == Some(row)
    ensures forall k | k != r.1 :: Lookup(r.0.rows, k) == Lookup(s.rows, k)
  {
    var id := s.nextId;
    var rows := s.rows + [(id, row)];
    assert Lookup(rows, id) == Some(row) by {
      LookupAppend(s.rows, (id, row), id);
    }
    assert forall k | k != id :: Lookup(rows, k) == Lookup(s.rows, k) by {
      forall k | k != id ensures Lookup(rows, k) == Lookup(s.rows, k) {
        LookupAppend(s.rows, (id, row), k);
      }
    }
    (Store(rows, id + 1), id)
  }

  /** Applies `f` to every row stored under `id`, leaving keys in place. */
  function UpdateRows<T>(rows: seq<(int, T)>, id: int, f: T -> T): (r: seq<(int, T)>)
    ensures |r| == |rows|
    ensures forall i | 0 <= i < |rows| :: r[i].0 == rows[i].0
    ensures forall i | 0 <= i < |rows| && rows[i].0 != id :: r[i] == rows[i]
    ensures forall i | 0 <= i < |rows| && rows[i].0 == id :: r[i].1 == f(rows[i].1)
  {
    if |rows| == 0 then []
    else
      var head := if rows[0].0 == id then (id, f(rows[0].1)) else rows[0];
      [head] + UpdateRows(rows[1..], id, f)
  }

  lemma {:induction false} LookupUpdateRows<T>(rows: seq<(int, T)>, id: int, f: T -> T, k: int)
    ensures Lookup(UpdateRows(rows, id, f), k)
         == if k == id && HasKey(rows, k) then Some(f(Lookup(rows, k).value)) else Lookup(rows, k)
  {
    if |rows| > 0 {
      var r := UpdateRows(rows, id, f);
      assert r[1..] == UpdateRows(rows[1..], id, f);
      LookupUpdateRows(rows[1..], id, f, k);
    }
  }

  /** UPDATE ... WHERE key = ?: `f` rewrites the row under `id` (nothing
      happens when there is none), and every other row stays as it was. */
  function Update<T>(s: Store<T>, id: int, f: T -> T): (r: Store<T>)
    requires Valid(s)
    ensures Valid(r) && r.nextId == s.nextId && |r.rows| == |s.rows|
    ensures forall k :: HasKey(r.rows, k) <==> HasKey(s.rows, k)
    ensures Lookup(r.rows, id) == if HasKey(s.rows, id) then Some(f(Lookup(s.rows, id).value)) else None
    ensures forall k | k != id :: Lookup(r.rows, k) == Lookup(s.rows, k)
  {
    var rows := UpdateRows(s.rows, id, f);
    LookupUpdateRows(s.rows, id, f, id);
    assert forall k | k != id :: Lookup(rows, k) == Lookup(s.rows, k) by {
      forall k | k != id ensures Lookup(rows, k) == Lookup(s.rows, k) {
        LookupUpdateRows(s.rows, id, f, k);
      }
    }
    assert forall k :: HasKey(rows, k) <==> HasKey(s.rows, k) by {
      forall k ensures HasKey(rows, k) <==> HasKey(s.rows, k) {
        LookupUpdateRows(s.rows, id, f, k);
      }
    }
    Store(rows, s.nextId)
  }

  /** A WHERE clause over listed rows: the rows that satisfy it, in their
      original order. */
  function Where<T>(rows: seq<(int, T)>, keep: ((int, T)) -> bool): (r: seq<(int, T)>)
    ensures |r| <= |rows|
    ensures forall i | 0 <= i < |r| :: r[i] in rows && keep(r[i])
    ensures forall i | 0 <= i < |rows| && keep(rows[i]) :: rows[i] in r
  {
    if |rows| == 0 then []
    else
      var rest := Where(rows[1..], keep);
      assert forall x | x in rows[1..] :: x in rows;
      assert forall i | 1 <= i < |rows| :: rows[i] == rows[1..][i - 1];
      if keep(rows[0]) then [rows[0]] + rest else rest
  }

  /** A condition every row meets selects the whole list. */
  lemma {:induction false} WhereKeepsAll<T>(rows: seq<(int, T)>, keep: ((int, T)) -> bool)
    requires forall i | 0 <= i < |rows| :: keep(rows[i])
    ensures Where(rows, keep) == rows
  {
    if |rows| > 0 {
      assert keep(rows[0]);
      assert forall i | 0 <= i < |rows[1..]| :: rows[1..][i] == rows[i + 1];
      WhereKeepsAll(rows[1..], keep);
      assert [rows[0]] + rows[1..] == rows;
    }
  }

  /** Filtering keeps rows in key order. */
  lemma {:induction false} WhereAscending<T>(rows: seq<(int, T)>, keep: ((int, T)) -> bool)
    requires Ascending(rows)
    ensures Ascending(Where(rows, keep))
    ensures |Where(rows, keep)| > 0 ==> rows[0].0 <= Where(rows, keep)[0].0
  {
    if |rows| > 0 {
      WhereAscending(rows[1..], keep);
      var rest := Where(rows[1..], keep);
      if |rest| > 0 {
        assert rows[1..][0].0 <= rest[0].0;
      }
    }
  }

  /** Over unique keys, a lookup after filtering finds the row it found
      before if that row passes the filter, and nothing otherwise. */
  lemma {:induction false} LookupWhere<T>(rows: seq<(int, T)>, keep: ((int, T)) -> bool, k: int)
    requires Ascending(rows)
    ensures Lookup(Where(rows, keep), k)
         == if HasKey(rows, k) && keep((k, Lookup(rows, k).value)) then Lookup(rows, k) else None
  {
    if |rows| > 0 {
      var tail := rows[1..];
      LookupWhere(tail, keep, k);
      if rows[0].0 == k && !keep(rows[0]) {
        var rest := Where(tail, keep);
        forall i | 0 <= i < |rest| ensures rest[i].0 != k {
          var j :| 0 <= j < |tail| && tail[j] == rest[i];
          assert rows[0].0 < rows[j + 1].0;
        }
      }
    }
  }

  /** DELETE ... WHERE key = ?: the row under `id` goes, nothing else. The
      key is not handed out again. */
  function Delete<T>(s: Store<T>, id: int): (r: Store<T>)
    requires Valid(s)
    ensures Valid(r) && r.nextId == s.nextId
    ensures Lookup(r.rows, id) == None
    ensures forall k | k != id :: Lookup(r.rows, k) == Lookup(s.rows, k)
  {
    var keep := (row: (int, T)) => row.0 != id;
    var rows := Where(s.rows, keep);
    WhereAscending(s.rows, keep);
    LookupWhere(s.rows, keep, id);
    assert forall k | k != id :: Lookup(rows, k) == Lookup(s.rows, k) by {
      forall k | k != id ensures Lookup(rows, k) == Lookup(s.rows, k) {
        LookupWhere(s.rows, keep, k);
      }
    }
    assert forall i | 0 <= i < |rows| :: 1 <= rows[i].0 < s.nextId by {
      forall i | 0 <= i < |rows| ensures 1 <= rows[i].0 < s.nextId {
        var j :| 0 <= j < |s.rows| && s.rows[j] == rows[i];
      }
    }
    Store(rows, s.nextId)
  }

  /** SELECT * ... WHERE key = ?: the matching rows, at most one since the
      key is primary. */
  function SelectById<T>(s: Store<T>, id: int): (r: seq<(int, T)>)
    ensures |r| <= 1
    ensures |r| == 0 <==> !HasKey(s.rows, id)
    ensures |r| == 1 ==> r[0].0 == id && r[0] in s.rows
  {
    match Lookup(s.rows, id)
    case Some(v) => [(id, v)]
    case None => []
  }

  /** Looking a key up is the same as filtering the table on that key. */
  lemma {:induction false} SelectByIdIsWhere<T>(s: Store<T>, id: int, keep: ((int, T)) -> bool)
    requires Valid(s)
    requires forall i | 0 <= i < |s.rows| :: keep(s.rows[i]) <==> s.rows[i].0 == id
    ensures SelectById(s, id) == Where(s.rows, keep)
  {
    WhereKeyIs(s.rows, id, keep);
  }

  lemma {:induction false} WhereKeyIs<T>(rows: seq<(int, T)>, id: int, keep: ((int, T)) -> bool)
    requires Ascending(rows)
    requires forall i | 0 <= i < |rows| :: keep(rows[i]) <==> rows[i].0 == id
    ensures Where(rows, keep) == match Lookup(rows, id) case Some(v) => [(id, v)] case None => []
  {
    if |rows| > 0 {
      var tail := rows[1..];
      WhereKeyIs(tail, id, keep);
      if rows[0].0 == id {
        forall i | 0 <= i < |tail| ensures tail[i].0 != id {
          assert rows[0].0 < rows[i + 1].0;
        }
      }
    }
  }

  /** Inserting and then selecting the new key gives back the inserted row. */
  lemma InsertThenSelect<T>(s: Store<T>, row: T)
    requires Valid(s)
    ensures var (s', id) := Insert(s, row); SelectById(s', id) == [(id, row)]
  {
  }

  /** After deleting a key, selecting it finds nothing. */
  lemma DeleteThenSelect<T>(s: Store<T>, id: int)
    requires Valid(s)
    ensures SelectById(Delete(s, id), id) == []
  {
  }
}
