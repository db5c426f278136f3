/** Database tables as sequences of rows with auto-increment ids. Rows are
    kept in id order, so "the first matching row" of an unordered query is
    the first matching row of the sequence. */
module Tables {
  import opened Results

  datatype Row<+T> = Row(id: nat, data: T)

  /** A table: its rows in id order and the next auto-increment id. */
  datatype Table<T> = Table(rows: seq<Row<T>>, nextId: nat)

  ghost predicate Ascending<T>(rows: seq<Row<T>>) {
    forall i, j | 0 <= i < j < |rows| :: rows[i].id < rows[j].id
  }

  /** Ids are unique, ordered, and below the auto-increment counter. */
  ghost predicate Valid<T>(t: Table<T>) {
    && Ascending(t.rows)
    && forall x | x in t.rows :: x.id < t.nextId
  }

  function Ids<T(==)>(rows: seq<Row<T>>): (r: set<nat>)
    ensures forall x | x in rows :: x.id in r
  {
    set x | x in rows :: x.id
  }

  predicate Has<T(==)>(t: Table<T>, id: nat) {
    id in Ids(t.rows)
  }

  /** The empty table of a fresh database. */
  function Empty<T(==)>(): (t: Table<T>)
    ensures Valid(t) && |t.rows| == 0
  {
    Table([], 1)
  }

  /** INSERT: the new row takes the next id and goes last. */
  function Insert<T(==)>(t: Table<T>, d: T): (r: Table<T>)
    ensures Valid(t) ==> Valid(r)
  {
    Table(t.rows + [Row(t.nextId, d)], t.nextId + 1)
  }

  /** The inserted row's id was free before and is taken after. */
  lemma InsertIds<T>(t: Table<T>, d: T)
    ensures Ids(Insert(t, d).rows) == Ids(t.rows) + {t.nextId}
    ensures Valid(t) ==> !Has(t, t.nextId)
  {
    var r := Insert(t, d);
    assert Row(t.nextId, d) in r.rows;
    assert forall x | x in r.rows :: x in t.rows || x == Row(t.nextId, d);
  }

  /** In a valid table, the inserted row is found under its new id. */
  lemma LookupInserted<T>(t: Table<T>, d: T, rows: seq<Row<T>>)
    requires rows == Insert(t, d).rows
    ensures Valid(t) ==> Lookup(rows, t.nextId) == Some(d)
  {
    assert Row(t.nextId, d) in rows;
  }

  /** The rows `ds` become when inserted from id `start` on. */
  function Numbered<T>(start: nat, ds: seq<T>): (r: seq<Row<T>>)
    ensures |r| == |ds|
    ensures forall k {:trigger r[k]} | 0 <= k < |ds| :: r[k] == Row(start + k, ds[k])
    decreases |ds|
  {
    if |ds| == 0 then [] else [Row(start, ds[0])] + Numbered(start + 1, ds[1..])
  }

  /** INSERT of several rows in order: they take consecutive ids. */
  function InsertAll<T(==)>(t: Table<T>, ds: seq<T>): (r: Table<T>)
    ensures r.rows == t.rows + Numbered(t.nextId, ds)
    ensures r.nextId == t.nextId + |ds|
    decreases |ds|
  {
    if |ds| == 0 then
      assert t.rows + Numbered(t.nextId, ds) == t.rows;
      t
    else
      var head := Row(t.nextId, ds[0]);
      var r := InsertAll(Table(t.rows + [head], t.nextId + 1), ds[1..]);
      assert Numbered(t.nextId, ds) == [head] + Numbered(t.nextId + 1, ds[1..]);
      assert (t.rows + [head]) + Numbered(t.nextId + 1, ds[1..]) == t.rows + ([head] + Numbered(t.nextId + 1, ds[1..]));
      r
  }

  lemma InsertAllValid<T>(t: Table<T>, ds: seq<T>)
    requires Valid(t)
    ensures Valid(InsertAll(t, ds))
  {
    var r := InsertAll(t, ds);
    var added := Numbered(t.nextId, ds);
    assert forall i | 0 <= i < |r.rows| ::
      r.rows[i] == if i < |t.rows| then t.rows[i] else added[i - |t.rows|];
    forall i, j | 0 <= i < j < |r.rows|
      ensures r.rows[i].id < r.rows[j].id
    {
      if j < |t.rows| {
      } else if i < |t.rows| {
        assert t.rows[i] in t.rows;
      }
    }
  }

  lemma ConcatAssoc<T>(a: seq<T>, b: seq<T>, c: seq<T>)
    ensures (a + b) + c == a + (b + c)
  {
  }

  /** The data of the row with the given id, if there is one. */
  function Lookup<T(==)>(rows: seq<Row<T>>, id: nat): (r: Option<T>)
    ensures r.Some? <==> id in Ids(rows)
    ensures r.Some? ==> Row(id, r.value) in rows
    ensures Ascending(rows) ==> forall x | x in rows && x.id == id :: r == Some(x.data)
  {
    if |rows| == 0 then None
    else if rows[0].id == id then Some(rows[0].data)
    else
      var r := Lookup(rows[1..], id);
      assert forall x | x in rows[1..] :: x in rows;
      assert forall x | x in rows && x != rows[0] :: x in rows[1..];
      r
  }

  /** SELECT ... WHERE p: the matching rows, in table order. */
  function Where<T(==)>(rows: seq<Row<T>>, p: Row<T> -> bool): (r: seq<Row<T>>)
    ensures forall x | x in r :: x in rows && p(x)
    ensures forall x | x in rows && p(x) :: x in r
    ensures |r| <= |rows|
  {
    if |rows| == 0 then []
    else (if p(rows[0]) then [rows[0]] else []) + Where(rows[1..], p)
  }

  /** DELETE ... WHERE p: the rows that do not match, in table order. */
  function Drop<T(==)>(rows: seq<Row<T>>, p: Row<T> -> bool): (r: seq<Row<T>>)
    ensures forall x | x in r :: x in rows && !p(x)
    ensures forall x | x in rows && !p(x) :: x in r
    ensures |r| <= |rows|
  {
    if |rows| == 0 then []
    else (if p(rows[0]) then [] else [rows[0]]) + Drop(rows[1..], p)
  }

  function Remove<T(==)>(t: Table<T>, p: Row<T> -> bool): (r: Table<T>)
    ensures Valid(t) ==> Valid(r)
    ensures forall x | x in r.rows :: x in t.rows && !p(x)
    ensures forall x | x in t.rows && !p(x) :: x in r.rows
  {
    var r := Table(Drop(t.rows, p), t.nextId);
    assert Valid(t) ==> Valid(r) by {
      if Valid(t) {
        DropAscending(t.rows, p);
      }
    }
    r
  }

  /** UPDATE ... SET data WHERE id = k: every other row is left as it was. */
  function Set<T(==)>(rows: seq<Row<T>>, id: nat, d: T): (r: seq<Row<T>>)
    ensures |r| == |rows|
    ensures forall i {:trigger r[i]} | 0 <= i < |rows| :: r[i] == if rows[i].id == id then Row(id, d) else rows[i]
  {
    if |rows| == 0 then []
    else [if rows[0].id == id then Row(id, d) else rows[0]] + Set(rows[1..], id, d)
  }

  function Update<T(==)>(t: Table<T>, id: nat, d: T): (r: Table<T>)
    ensures Valid(t) ==> Valid(r)
    ensures Ids(r.rows) == Ids(t.rows)
  {
    var r := Table(Set(t.rows, id, d), t.nextId);
    assert forall x | x in r.rows :: exists i | 0 <= i < |t.rows| :: r.rows[i] == x;
    assert forall i | 0 <= i < |t.rows| :: t.rows[i].id == r.rows[i].id;
    r
  }

  /** After an UPDATE of row `id`, that row holds the new data and every
      other row is found as before. */
  lemma {:induction false} LookupSet<T>(rows: seq<Row<T>>, id: nat, d: T, u: nat)
    ensures u == id ==> Lookup(Set(rows, id, d), u) == (if id in Ids(rows) then Some(d) else None)
    ensures u != id ==> Lookup(Set(rows, id, d), u) == Lookup(rows, u)
  {
    if |rows| > 0 {
      var updated := Set(rows, id, d);
      LookupSet(rows[1..], id, d, u);
      assert updated[1..] == Set(rows[1..], id, d);
      assert Ids(rows) == {rows[0].id} + Ids(rows[1..]);
      if rows[0].id != u {
        assert updated[0].id != u;
        assert Lookup(updated, u) == Lookup(updated[1..], u);
      }
    }
  }


  /** The data of the rows, in table order (the rows without their ids). */
  function Data<T>(rows: seq<Row<T>>): (r: seq<T>)
    ensures |r| == |rows|
    ensures forall i {:trigger r[i]} | 0 <= i < |rows| :: r[i] == rows[i].data
  {
    if |rows| == 0 then [] else [rows[0].data] + Data(rows[1..])
  }

  lemma DataNumbered<T>(start: nat, ds: seq<T>)
    ensures Data(Numbered(start, ds)) == ds
  {
  }

  lemma DataConcat<T>(a: seq<Row<T>>, b: seq<Row<T>>)
    ensures Data(a + b) == Data(a) + Data(b)
  {
  }

  /** `->first()` of a query: the earliest matching row, if any. */
  function First<T(==)>(rows: seq<Row<T>>, p: Row<T> -> bool): (r: Option<Row<T>>)
    ensures r.Some? ==> r.value in rows && p(r.value)
    ensures r.None? <==> forall x | x in rows :: !p(x)
    ensures r == (var w := Where(rows, p); if |w| == 0 then None else Some(w[0]))
  {
    if |rows| == 0 then None
    else if p(rows[0]) then Some(rows[0])
    else First(rows[1..], p)
  }

  /** On rows kept in id order, no row with a smaller id than the one
      `first()` returns matches the query. */
  lemma {:induction false} FirstIsEarliest<T>(rows: seq<Row<T>>, p: Row<T> -> bool)
    requires Ascending(rows)
    ensures First(rows, p).Some? ==> forall x | x in rows && x.id < First(rows, p).value.id :: !p(x)
  {
    if |rows| > 0 && !p(rows[0]) {
      FirstIsEarliest(rows[1..], p);
      assert forall x | x in rows :: x == rows[0] || x in rows[1..];
    }
  }

  lemma {:induction false} WhereConcat<T>(a: seq<Row<T>>, b: seq<Row<T>>, p: Row<T> -> bool)
    ensures Where(a + b, p) == Where(a, p) + Where(b, p)
  {
    if |a| == 0 {
      assert a + b == b;
    } else {
      assert (a + b)[1..] == a[1..] + b;
      WhereConcat(a[1..], b, p);
    }
  }

  lemma {:induction false} DropConcat<T>(a: seq<Row<T>>, b: seq<Row<T>>, p: Row<T> -> bool)
    ensures Drop(a + b, p) == Drop(a, p) + Drop(b, p)
  {
    if |a| == 0 {
      assert a + b == b;
    } else {
      assert (a + b)[1..] == a[1..] + b;
      DropConcat(a[1..], b, p);
    }
  }

  /** A query every row matches returns the whole table. */
  lemma {:induction false} WhereAll<T>(rows: seq<Row<T>>, p: Row<T> -> bool)
    requires forall x | x in rows :: p(x)
    ensures Where(rows, p) == rows
  {
    if |rows| > 0 {
      assert forall x | x in rows[1..] :: x in rows;
      WhereAll(rows[1..], p);
      assert rows == [rows[0]] + rows[1..];
    }
  }

  /** A query no row matches returns nothing. */
  lemma WhereNone<T>(rows: seq<Row<T>>, p: Row<T> -> bool)
    requires forall x | x in rows :: !p(x)
    ensures Where(rows, p) == []
  {
  }

  /** Deleting rows none of which match leaves the table as it was. */
  lemma {:induction false} DropNone<T>(rows: seq<Row<T>>, p: Row<T> -> bool)
    requires forall x | x in rows :: !p(x)
    ensures Drop(rows, p) == rows
  {
    if |rows| > 0 {
      assert forall x | x in rows[1..] :: x in rows;
      DropNone(rows[1..], p);
      assert rows == [rows[0]] + rows[1..];
    }
  }

  lemma {:induction false} WhereAscending<T>(rows: seq<Row<T>>, p: Row<T> -> bool)
    requires Ascending(rows)
    ensures Ascending(Where(rows, p))
  {
    if |rows| > 0 {
      WhereAscending(rows[1..], p);
      assert forall x | x in rows[1..] :: rows[0].id < x.id;
    }
  }

  lemma {:induction false} DropAscending<T>(rows: seq<Row<T>>, p: Row<T> -> bool)
    requires Ascending(rows)
    ensures Ascending(Drop(rows, p))
  {
    if |rows| > 0 {
      DropAscending(rows[1..], p);
      assert forall x | x in rows[1..] :: rows[0].id < x.id;
    }
  }

  /** Deleting rows that the query p never matches does not change its answer. */
  lemma {:induction false} WhereDropDisjoint<T>(rows: seq<Row<T>>, p: Row<T> -> bool, q: Row<T> -> bool)
    requires forall x | x in rows && q(x) :: !p(x)
    ensures Where(Drop(rows, q), p) == Where(rows, p)
  {
    if |rows| > 0 {
      var rest := Drop(rows[1..], q);
      assert forall x | x in rows[1..] :: x in rows;
      WhereDropDisjoint(rows[1..], p, q);
      if q(rows[0]) {
        assert Drop(rows, q) == rest;
      } else {
        var dropped := [rows[0]] + rest;
        assert Drop(rows, q) == dropped;
        assert dropped[0] == rows[0] && dropped[1..] == rest;
        assert Where(dropped, p) == (if p(rows[0]) then [rows[0]] else []) + Where(rest, p);
      }
    }
  }


  /** Overwriting a row the query p matches neither before nor after does not change its answer. */
  lemma {:induction false} WhereSetOutside<T>(rows: seq<Row<T>>, id: nat, d: T, p: Row<T> -> bool)
    requires forall x | x in rows && x.id == id :: !p(x)
    requires !p(Row(id, d))
    ensures Where(Set(rows, id, d), p) == Where(rows, p)
  {
    if |rows| > 0 {
      assert forall x | x in rows[1..] :: x in rows;
      WhereSetOutside(rows[1..], id, d, p);
      assert Set(rows, id, d)[1..] == Set(rows[1..], id, d);
    }
  }

  /** Overwriting a row the query p matches both before and after keeps the
      number of answers. */
  lemma {:induction false} WhereSetInside<T>(rows: seq<Row<T>>, id: nat, d: T, p: Row<T> -> bool)
    requires forall x | x in rows && x.id == id :: p(x)
    requires p(Row(id, d))
    ensures |Where(Set(rows, id, d), p)| == |Where(rows, p)|
  {
    if |rows| > 0 {
      assert forall x | x in rows[1..] :: x in rows;
      WhereSetInside(rows[1..], id, d, p);
      assert Set(rows, id, d)[1..] == Set(rows[1..], id, d);
    }
  }

  /** After an UPDATE of row `id`, every row with that id holds the new data. */
  lemma SetHolds<T>(rows: seq<Row<T>>, id: nat, d: T)
    ensures forall x | x in Set(rows, id, d) && x.id == id :: x.data == d
  {
    var r := Set(rows, id, d);
    forall x | x in r && x.id == id
      ensures x.data == d
    {
      var i :| 0 <= i < |r| && r[i] == x;
    }
  }

  /** Overwriting a row with the data it already holds changes nothing. */
  lemma {:induction false} SetUnchanged<T>(rows: seq<Row<T>>, id: nat, d: T)
    requires forall x | x in rows && x.id == id :: x.data == d
    ensures Set(rows, id, d) == rows
  {
    if |rows| > 0 {
      assert forall x | x in rows[1..] :: x in rows;
      SetUnchanged(rows[1..], id, d);
      assert rows == [rows[0]] + rows[1..];
    }
  }

  /** Ids identify rows: in an id-ordered table two rows with one id are the same row. */
  lemma SameIdSameRow<T>(rows: seq<Row<T>>, x: Row<T>, y: Row<T>)
    requires Ascending(rows) && x in rows && y in rows && x.id == y.id
    ensures x == y
  {
    var i :| 0 <= i < |rows| && rows[i] == x;
    var j :| 0 <= j < |rows| && rows[j] == y;
    assert !(i < j) && !(j < i);
  }

  /** Overwriting the first row a query matches with data it still matches
      leaves that row first, holding the new data. */
  lemma {:induction false} FirstSet<T>(rows: seq<Row<T>>, id: nat, d: T, p: Row<T> -> bool)
    requires First(rows, p).Some? && First(rows, p).value.id == id
    requires p(Row(id, d))
    ensures First(Set(rows, id, d), p) == Some(Row(id, d))
  {
    var updated := Set(rows, id, d);
    if rows[0].id != id {
      assert updated[1..] == Set(rows[1..], id, d);
      FirstSet(rows[1..], id, d, p);
    }
  }
}
