/**
 * The U1.USERS table as the SQL statements of the repositories see it: a
 * set of rows keyed by the primary key ID, kept here in ascending ID order
 * (the order `ORDER BY ID` returns), with a map view for the mutations.
 */
module Store {
  import opened Wrappers
  import opened Uuids
  import opened Models

  /** Where a driver call fails, if it does: at `PrepareContext`, or when the statement runs. */
  datatype Fault = NoFault | FailAtPrepare | FailAtExecute

  datatype Table = Table(rows: seq<User>)

  /** The table after a statement, and what the repository method returns. */
  datatype Step<T> = Step(table: Table, result: Result<T, Error>)

  /** The column list a statement reads back (SELECT list or RETURNING). */
  datatype Columns = AllColumns | AllButPassword

  /** The struct a scan of one row fills in: an unread PASSWORD stays Go's zero "". */
  function ReadBack(row: User, columns: Columns): (r: User)
    ensures r.id == row.id && r.createdAt == row.createdAt && r.updatedAt == row.updatedAt
    ensures r.firstName == row.firstName && r.lastName == row.lastName && r.nickname == row.nickname
    ensures r.email == row.email && r.country == row.country
    ensures columns.AllColumns? ==> r == row
    ensures columns.AllButPassword? ==> r.password == "" && r.(password := row.password) == row
  {
    match columns
    case AllColumns => row
    case AllButPassword => row.(password := "")
  }

  /**
   * A scan loses exactly what it does not read: two rows scan alike iff
   * they are equal, or, when PASSWORD is not read, equal but for it.
   */
  lemma ReadBackLosesOnlyPassword(a: User, b: User, columns: Columns)
    ensures ReadBack(a, columns) == ReadBack(b, columns) <==>
              if columns.AllColumns? then a == b else a.(password := b.password) == b
  {
  }

  predicate Ascending(rows: seq<User>)
  {
    forall i, j :: 0 <= i < j < |rows| ==> Less(rows[i].id, rows[j].id)
  }

  /** The primary-key invariant: IDs are distinct, and the rows are listed in ID order. */
  predicate Valid(t: Table)
  {
    Ascending(t.rows)
  }

  /** The table as a map from primary key to row. */
  function Contents(rows: seq<User>): (m: map<Uuid, User>)
    ensures forall k :: k in m ==> m[k].id == k
    ensures forall i :: 0 <= i < |rows| ==> rows[i].id in m
    decreases |rows|
  {
    if |rows| == 0 then map[]
    else
      var m := Contents(rows[1..]);
      assert forall i :: 1 <= i < |rows| ==> rows[i] == rows[1..][i - 1];
      m[rows[0].id := rows[0]]
  }

  lemma {:induction false} ContentsWitness(rows: seq<User>, k: Uuid)
    requires k in Contents(rows)
    ensures exists i :: 0 <= i < |rows| && rows[i].id == k
    decreases |rows|
  {
    if rows[0].id != k {
      ContentsWitness(rows[1..], k);
      var i :| 0 <= i < |rows[1..]| && rows[1..][i].id == k;
      assert rows[i + 1].id == k;
    }
  }

  lemma {:induction false} ContentsAt(rows: seq<User>, i: int)
    requires Ascending(rows)
    requires 0 <= i < |rows|
    ensures Contents(rows)[rows[i].id] == rows[i]
    decreases |rows|
  {
    if i > 0 {
      LessAsymmetric(rows[0].id, rows[i].id);
      ContentsAt(rows[1..], i - 1);
    }
  }

  /** In ascending rows the first ID does not occur again later. */
  lemma HeadNotInTail(rows: seq<User>)
    requires Ascending(rows)
    requires |rows| > 0
    ensures rows[0].id !in Contents(rows[1..])
  {
    if rows[0].id in Contents(rows[1..]) {
      ContentsWitness(rows[1..], rows[0].id);
      var i :| 0 <= i < |rows[1..]| && rows[1..][i].id == rows[0].id;
      assert Less(rows[0].id, rows[i + 1].id);
      LessIrreflexive(rows[0].id);
    }
  }

  /** Every row of ascending rows has an ID above the first. */
  lemma HeadBelowTail(rows: seq<User>)
    requires Ascending(rows)
    requires |rows| > 0
    ensures forall x :: x in rows[1..] ==> Less(rows[0].id, x.id)
  {
    forall x | x in rows[1..]
      ensures Less(rows[0].id, x.id)
    {
      var j :| 0 <= j < |rows[1..]| && rows[1..][j] == x;
      assert rows[j + 1] == x;
    }
  }

  lemma AscendingCons(x: User, rows: seq<User>)
    requires Ascending(rows)
    requires forall y :: y in rows ==> Less(x.id, y.id)
    ensures Ascending([x] + rows)
  {
    var r := [x] + rows;
    forall i, j | 0 <= i < j < |r|
      ensures Less(r[i].id, r[j].id)
    {
      if i > 0 {
        assert r[i] == rows[i - 1] && r[j] == rows[j - 1];
      } else {
        assert r[j] == rows[j - 1];
        assert r[j] in rows;
      }
    }
  }

  lemma AscendingTail(rows: seq<User>)
    requires Ascending(rows)
    requires |rows| > 0
    ensures Ascending(rows[1..])
  {
    forall i, j | 0 <= i < j < |rows[1..]|
      ensures Less(rows[1..][i].id, rows[1..][j].id)
    {
      assert rows[1..][i] == rows[i + 1] && rows[1..][j] == rows[j + 1];
    }
  }

  /** `SELECT ... WHERE ID = $1`. */
  function Lookup(rows: seq<User>, id: Uuid): (r: Option<User>)
    ensures r.Some? <==> id in Contents(rows)
    ensures r.Some? ==> r.value == Contents(rows)[id] && r.value.id == id
    decreases |rows|
  {
    if |rows| == 0 then None
    else if rows[0].id == id then Some(rows[0])
    else Lookup(rows[1..], id)
  }

  /** `INSERT`: the new row takes its place in ID order. */
  function Insert(rows: seq<User>, row: User): (r: seq<User>)
    requires Ascending(rows)
    requires row.id !in Contents(rows)
    decreases |rows|
  {
    if |rows| == 0 then [row]
    else if Less(row.id, rows[0].id) then [row] + rows
    else
      AscendingTail(rows);
      [rows[0]] + Insert(rows[1..], row)
  }

  lemma {:induction false} InsertSpec(rows: seq<User>, row: User)
    requires Ascending(rows)
    requires row.id !in Contents(rows)
    ensures Ascending(Insert(rows, row))
    ensures Contents(Insert(rows, row)) == Contents(rows)[row.id := row]
    ensures forall x :: x in Insert(rows, row) <==> x in rows || x == row
  {
    InsertMembers(rows, row);
    InsertAscending(rows, row);
    InsertContents(rows, row);
  }

  lemma {:induction false} InsertMembers(rows: seq<User>, row: User)
    requires Ascending(rows)
    requires row.id !in Contents(rows)
    ensures forall x :: x in Insert(rows, row) <==> x in rows || x == row
    decreases |rows|
  {
    if |rows| > 0 && !Less(row.id, rows[0].id) {
      AscendingTail(rows);
      InsertMembers(rows[1..], row);
      assert rows == [rows[0]] + rows[1..];
    }
  }

  lemma {:induction false} InsertAscending(rows: seq<User>, row: User)
    requires Ascending(rows)
    requires row.id !in Contents(rows)
    ensures Ascending(Insert(rows, row))
    decreases |rows|
  {
    if |rows| == 0 {
    } else if Less(row.id, rows[0].id) {
      HeadBelowTail(rows);
      forall y | y in rows
        ensures Less(row.id, y.id)
      {
        if y != rows[0] {
          assert y in rows[1..];
          LessTransitive(row.id, rows[0].id, y.id);
        }
      }
      AscendingCons(row, rows);
    } else {
      LessTotal(row.id, rows[0].id);
      HeadBelowTail(rows);
      AscendingTail(rows);
      var tail := Insert(rows[1..], row);
      InsertAscending(rows[1..], row);
      InsertMembers(rows[1..], row);
      AscendingCons(rows[0], tail);
    }
  }

  lemma {:induction false} InsertContents(rows: seq<User>, row: User)
    requires Ascending(rows)
    requires row.id !in Contents(rows)
    ensures Contents(Insert(rows, row)) == Contents(rows)[row.id := row]
    decreases |rows|
  {
    if |rows| == 0 {
    } else if Less(row.id, rows[0].id) {
      assert ([row] + rows)[1..] == rows;
    } else {
      AscendingTail(rows);
      var tail := Insert(rows[1..], row);
      InsertContents(rows[1..], row);
      assert ([rows[0]] + tail)[1..] == tail;
      assert rows[0].id != row.id;
    }
  }

  /** `UPDATE ... WHERE ID = row.id`: the row with that ID is replaced, in place. */
  function Replace(rows: seq<User>, row: User): (r: seq<User>)
    ensures |r| == |rows|
    ensures forall i :: 0 <= i < |r| ==> r[i].id == rows[i].id
    decreases |rows|
  {
    if |rows| == 0 then []
    else if rows[0].id == row.id then [row] + rows[1..]
    else [rows[0]] + Replace(rows[1..], row)
  }

  lemma {:induction false} ReplaceSpec(rows: seq<User>, row: User)
    requires Ascending(rows)
    requires row.id in Contents(rows)
    ensures Ascending(Replace(rows, row))
    ensures Contents(Replace(rows, row)) == Contents(rows)[row.id := row]
    decreases |rows|
  {
    var r := Replace(rows, row);
    assert forall i, j :: 0 <= i < j < |r| ==> r[i].id == rows[i].id && r[j].id == rows[j].id;
    if rows[0].id == row.id {
      assert r[1..] == rows[1..];
    } else {
      AscendingTail(rows);
      ReplaceSpec(rows[1..], row);
      assert r[1..] == Replace(rows[1..], row);
    }
  }

  /** `DELETE ... WHERE ID = id`. */
  function Delete(rows: seq<User>, id: Uuid): (r: seq<User>)
    ensures forall x :: x in r ==> x in rows
    decreases |rows|
  {
    if |rows| == 0 then []
    else if rows[0].id == id then rows[1..]
    else [rows[0]] + Delete(rows[1..], id)
  }

  lemma {:induction false} DeleteSpec(rows: seq<User>, id: Uuid)
    requires Ascending(rows)
    ensures Ascending(Delete(rows, id))
    ensures Contents(Delete(rows, id)) == Contents(rows) - {id}
    ensures |rows| - |Delete(rows, id)| == (if id in Contents(rows) then 1 else 0)
  {
    DeleteAscending(rows, id);
    DeleteContents(rows, id);
  }

  lemma {:induction false} DeleteAscending(rows: seq<User>, id: Uuid)
    requires Ascending(rows)
    ensures Ascending(Delete(rows, id))
    decreases |rows|
  {
    if |rows| == 0 {
    } else if rows[0].id == id {
      AscendingTail(rows);
    } else {
      HeadBelowTail(rows);
      AscendingTail(rows);
      DeleteAscending(rows[1..], id);
      AscendingCons(rows[0], Delete(rows[1..], id));
    }
  }

  lemma {:induction false} DeleteContents(rows: seq<User>, id: Uuid)
    requires Ascending(rows)
    ensures Contents(Delete(rows, id)) == Contents(rows) - {id}
    ensures |rows| - |Delete(rows, id)| == (if id in Contents(rows) then 1 else 0)
    decreases |rows|
  {
    if |rows| == 0 {
    } else if rows[0].id == id {
      HeadNotInTail(rows);
      assert Contents(rows) == Contents(rows[1..])[id := rows[0]];
      assert Contents(rows[1..]) == Contents(rows) - {id};
    } else {
      AscendingTail(rows);
      var tail := Delete(rows[1..], id);
      DeleteContents(rows[1..], id);
      assert ([rows[0]] + tail)[1..] == tail;
      var m := Contents(rows[1..]);
      assert Contents(rows) == m[rows[0].id := rows[0]];
      assert Contents([rows[0]] + tail) == (m - {id})[rows[0].id := rows[0]];
      assert (m - {id})[rows[0].id := rows[0]] == m[rows[0].id := rows[0]] - {id};
    }
  }
}
