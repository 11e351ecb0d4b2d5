/**
 * The lookup query shared by both repository variants: the limit clamp,
 * the WHERE clause the FindUsers template renders, `ORDER BY ID`, the
 * 101-row `LIMIT`, and the keyset-continuity argument that rests on them.
 */
module UserQuery {
  import opened Wrappers
  import opened Uuids
  import opened Models
  import opened Store
  import opened Convert
  import opened Pagination

  const PageLimit: int := 100
  const OneForToken: int := 1

  /** A requested limit outside [1, PageLimit] means PageLimit. */
  function ClampLimit(limit: int): (r: int)
    ensures 1 <= r <= PageLimit
    ensures 1 <= limit <= PageLimit <==> r == limit
    ensures r != limit ==> r == PageLimit
  {
    if limit < 1 || limit > PageLimit then PageLimit else limit
  }

  /** `{{if .F}} AND F = '{{.F}}' {{end}}`: an empty filter field does not constrain. */
  predicate FieldMatches(value: string, wanted: string)
  {
    wanted == "" || value == wanted
  }

  /**
   * The rendered WHERE clause. `ID >= $1` bounds by the cursor; the
   * `{{if .ID}}` clause is always rendered, because Go's templates treat
   * the 16-byte array of a uuid.UUID as non-empty, so the filter's own ID
   * is a second lower bound (none at all for uuid.Nil).
   */
  predicate Matches(row: User, cursor: Uuid, filter: User)
  {
    && AtMost(cursor, row.id)
    && FieldMatches(row.firstName, filter.firstName)
    && FieldMatches(row.lastName, filter.lastName)
    && FieldMatches(row.nickname, filter.nickname)
    && FieldMatches(row.country, filter.country)
    && FieldMatches(row.email, filter.email)
    && AtMost(filter.id, row.id)
  }

  /** `WHERE ... ORDER BY ID` over the table: its matching rows, in ID order. */
  function Select(rows: seq<User>, cursor: Uuid, filter: User): (r: seq<User>)
    ensures forall x :: x in r ==> x in rows && Matches(x, cursor, filter)
    ensures |r| <= |rows|
    decreases |rows|
  {
    if |rows| == 0 then []
    else if Matches(rows[0], cursor, filter) then [rows[0]] + Select(rows[1..], cursor, filter)
    else Select(rows[1..], cursor, filter)
  }

  /** `LIMIT n`. */
  function Take(rows: seq<User>, n: int): (r: seq<User>)
    requires n >= 0
    ensures |r| == Min(|rows|, n) && r == rows[..|r|]
  {
    if |rows| <= n then rows else rows[..n]
  }

  /** Every matching row of the table is selected, and only those. */
  lemma {:induction false} SelectComplete(rows: seq<User>, cursor: Uuid, filter: User)
    ensures forall x :: x in Select(rows, cursor, filter) <==> x in rows && Matches(x, cursor, filter)
    decreases |rows|
  {
    if |rows| > 0 {
      SelectComplete(rows[1..], cursor, filter);
      assert forall x :: x in rows <==> x == rows[0] || x in rows[1..];
    }
  }

  /** Selection keeps the table's ID order, so the result is ordered by ID. */
  lemma {:induction false} SelectAscending(rows: seq<User>, cursor: Uuid, filter: User)
    requires Ascending(rows)
    ensures Ascending(Select(rows, cursor, filter))
    decreases |rows|
  {
    if |rows| > 0 {
      AscendingTail(rows);
      SelectAscending(rows[1..], cursor, filter);
      if Matches(rows[0], cursor, filter) {
        HeadBelowTail(rows);
        AscendingCons(rows[0], Select(rows[1..], cursor, filter));
      }
    }
  }

  /** With no cursor and an empty filter, every row is selected. */
  lemma {:induction false} EmptyFilterSelectsAll(rows: seq<User>, filter: User)
    requires filter.id == Nil
    requires filter.firstName == filter.lastName == filter.nickname == filter.country == filter.email == ""
    ensures Select(rows, Nil, filter) == rows
    decreases |rows|
  {
    if |rows| > 0 {
      NilIsLeast(rows[0].id, Nil);
      EmptyFilterSelectsAll(rows[1..], filter);
      assert rows == [rows[0]] + rows[1..];
    }
  }

  /** Two cursors that admit the same rows select the same rows. */
  lemma {:induction false} SelectCongruent(rows: seq<User>, c1: Uuid, c2: Uuid, filter: User)
    requires forall x :: x in rows ==> (Matches(x, c1, filter) <==> Matches(x, c2, filter))
    ensures Select(rows, c1, filter) == Select(rows, c2, filter)
    decreases |rows|
  {
    if |rows| > 0 {
      assert rows[0] in rows;
      assert forall x :: x in rows[1..] ==> x in rows;
      SelectCongruent(rows[1..], c1, c2, filter);
    }
  }

  /**
   * Keyset step: re-selecting from the ID of the k-th selected row yields
   * exactly the selection from position k on, with nothing repeated or skipped.
   */
  lemma {:induction false} SelectFrom(rows: seq<User>, cursor: Uuid, filter: User, k: int)
    requires Ascending(rows)
    requires 0 <= k < |Select(rows, cursor, filter)|
    ensures Select(rows, Select(rows, cursor, filter)[k].id, filter) == Select(rows, cursor, filter)[k..]
    decreases |rows|
  {
    var all := Select(rows, cursor, filter);
    var next := all[k].id;
    var tail := Select(rows[1..], cursor, filter);
    AscendingTail(rows);
    HeadBelowTail(rows);
    if Matches(rows[0], cursor, filter) {
      assert all == [rows[0]] + tail;
      if k == 0 {
        assert next == rows[0].id;
        forall x | x in rows[1..]
          ensures Matches(x, next, filter) <==> Matches(x, cursor, filter)
        {
          assert Less(next, x.id);
          AtMostTransitive(cursor, next, x.id);
        }
        SelectCongruent(rows[1..], next, cursor, filter);
        assert Matches(rows[0], next, filter);
      } else {
        assert all[k] == tail[k - 1];
        SelectFrom(rows[1..], cursor, filter, k - 1);
        assert tail[k - 1] in rows[1..];
        LessAsymmetric(rows[0].id, next);
        assert !Matches(rows[0], next, filter);
        assert all[k..] == tail[k - 1..];
      }
    } else {
      assert all == tail;
      SelectFrom(rows[1..], cursor, filter, k);
      assert all[k] in rows[1..];
      LessAsymmetric(rows[0].id, next);
      assert !Matches(rows[0], next, filter);
    }
  }

  /** The rows a lookup reads back from the cursor on, in ID order, with the variant's columns. */
  function Listing(t: Table, cursor: Uuid, filter: User, columns: Columns): (r: seq<User>)
    ensures |r| == |Select(t.rows, cursor, filter)|
    ensures forall i :: 0 <= i < |r| ==> r[i] == ReadBack(Select(t.rows, cursor, filter)[i], columns)
  {
    var s := Select(t.rows, cursor, filter);
    seq(|s|, i requires 0 <= i < |s| => ReadBack(s[i], columns))
  }

  /**
   * `FindUsers`, common to both repository variants: clamp the limit,
   * decode the page token (failing before any statement is prepared), run
   * the query for PageLimit + OneForToken rows, and paginate them with the
   * clamped limit.
   */
  function Find(t: Table, filter: User, pageToken: string, limit: int, fault: Fault, columns: Columns): (r: Result<UsersResponse, Error>)
    ensures DecodeBase64ToUuid(pageToken).Failure? ==> r == Failure(PageTokenInvalid(DecodeBase64ToUuid(pageToken).error))
    ensures DecodeBase64ToUuid(pageToken).Success? && fault.FailAtPrepare? ==> r == Failure(PrepareFailed(FindOp))
    ensures DecodeBase64ToUuid(pageToken).Success? && fault.FailAtExecute? ==> r == Failure(StoreFailed(FindOp))
    ensures r.Success? <==> DecodeBase64ToUuid(pageToken).Success? && fault.NoFault?
    ensures r.Success? ==>
              var all := Listing(t, DecodeBase64ToUuid(pageToken).value, filter, columns);
              var n := ClampLimit(limit);
              && |r.value.users| == Min(|all|, n)
              && r.value.users == all[..|r.value.users|]
              && (r.value.pageToken != "" <==> |all| > n)
              && (r.value.pageToken != "" ==> DecodeBase64ToUuid(r.value.pageToken) == Success(all[n].id))
  {
    var n := ClampLimit(limit);
    match DecodeBase64ToUuid(pageToken)
    case Failure(e) => Failure(PageTokenInvalid(e))
    case Success(cursor) =>
      if fault.FailAtPrepare? then Failure(PrepareFailed(FindOp))
      else if fault.FailAtExecute? then Failure(StoreFailed(FindOp))
      else
        var rows := Take(Listing(t, cursor, filter, columns), PageLimit + OneForToken);
        var (page, token) := Paginate(rows, n);
        Success(UsersResponse(page, token))
  }

  /** Every row of a page matches the query, exists in the table, and the page is in ID order. */
  lemma PageFacts(t: Table, filter: User, pageToken: string, limit: int, fault: Fault, columns: Columns)
    requires Valid(t)
    requires Find(t, filter, pageToken, limit, fault, columns).Success?
    ensures var users := Find(t, filter, pageToken, limit, fault, columns).value.users;
            && (forall i :: 0 <= i < |users| ==>
                  && ReadBack(users[i], columns) == users[i]
                  && Matches(users[i], DecodeBase64ToUuid(pageToken).value, filter)
                  && users[i].id in Contents(t.rows))
            && (forall i, j :: 0 <= i < j < |users| ==> Less(users[i].id, users[j].id))
  {
    var cursor := DecodeBase64ToUuid(pageToken).value;
    var users := Find(t, filter, pageToken, limit, fault, columns).value.users;
    var sel := Select(t.rows, cursor, filter);
    var all := Listing(t, cursor, filter, columns);
    SelectAscending(t.rows, cursor, filter);
    forall i | 0 <= i < |users|
      ensures ReadBack(users[i], columns) == users[i]
      ensures Matches(users[i], cursor, filter)
      ensures users[i].id in Contents(t.rows)
    {
      assert users[i] == all[i] == ReadBack(sel[i], columns);
      assert sel[i] in sel;
      var k :| 0 <= k < |t.rows| && t.rows[k] == sel[i];
    }
    forall i, j | 0 <= i < j < |users|
      ensures Less(users[i].id, users[j].id)
    {
      assert users[i] == all[i] && users[j] == all[j];
    }
  }

  /**
   * Keyset continuity over a fixed table: the token of a page leads to the
   * page that starts at the first row the previous one left out, so the two
   * pages together are the next stretch of the listing, with no row
   * repeated and none skipped.
   */
  /** Each page row is the scan, with the statement's columns, of the table's row for its ID. */
  lemma PageRowsStored(t: Table, filter: User, pageToken: string, limit: int, fault: Fault, columns: Columns)
    requires Valid(t)
    requires Find(t, filter, pageToken, limit, fault, columns).Success?
    ensures var users := Find(t, filter, pageToken, limit, fault, columns).value.users;
            forall i :: 0 <= i < |users| ==>
              users[i].id in Contents(t.rows) && users[i] == ReadBack(Contents(t.rows)[users[i].id], columns)
  {
    var cursor := DecodeBase64ToUuid(pageToken).value;
    var users := Find(t, filter, pageToken, limit, fault, columns).value.users;
    var sel := Select(t.rows, cursor, filter);
    forall i | 0 <= i < |users|
      ensures users[i].id in Contents(t.rows) && users[i] == ReadBack(Contents(t.rows)[users[i].id], columns)
    {
      assert users[i] == ReadBack(sel[i], columns);
      assert sel[i] in sel;
      var k :| 0 <= k < |t.rows| && t.rows[k] == sel[i];
      ContentsAt(t.rows, k);
    }
  }

  lemma FindContinuity(t: Table, filter: User, pageToken: string, limit: int, columns: Columns)
    requires Valid(t)
    requires DecodeBase64ToUuid(pageToken).Success?
    requires |Select(t.rows, DecodeBase64ToUuid(pageToken).value, filter)| > ClampLimit(limit)
    ensures var first := Find(t, filter, pageToken, limit, NoFault, columns);
            && first.Success?
            && Continues(first.value, Find(t, filter, first.value.pageToken, limit, NoFault, columns),
                         Listing(t, DecodeBase64ToUuid(pageToken).value, filter, columns), ClampLimit(limit))
  {
    var cursor := DecodeBase64ToUuid(pageToken).value;
    var n := ClampLimit(limit);
    var sel := Select(t.rows, cursor, filter);
    var all := Listing(t, cursor, filter, columns);
    var first := Find(t, filter, pageToken, limit, NoFault, columns).value;
    FirstPage(t, filter, pageToken, limit, columns);
    ListingFrom(t, cursor, filter, columns, n);
    PageAt(t, filter, first.pageToken, limit, columns, sel[n].id, all[n..]);
    var next := Find(t, filter, first.pageToken, limit, NoFault, columns);
    TwoPages(first, next, all, n);
  }

  /**
   * `next`, read with the token of `first`, carries on where `first` stopped: together they
   * are the first 2n rows of the listing, and `next` starts at row n.
   */
  predicate Continues(first: UsersResponse, next: Result<UsersResponse, Error>, all: seq<User>, n: int)
  {
    && 0 <= n <= |all|
    && first.pageToken != ""
    && next.Success?
    && next.value.users == all[n..][..Min(|all| - n, n)]
    && first.users + next.value.users == all[..Min(|all|, 2 * n)]
  }

  /** A page that stops short of the end: its token names the ID of the first row left out. */
  lemma FirstPage(t: Table, filter: User, pageToken: string, limit: int, columns: Columns)
    requires Valid(t)
    requires DecodeBase64ToUuid(pageToken).Success?
    requires |Select(t.rows, DecodeBase64ToUuid(pageToken).value, filter)| > ClampLimit(limit)
    ensures var sel := Select(t.rows, DecodeBase64ToUuid(pageToken).value, filter);
            var all := Listing(t, DecodeBase64ToUuid(pageToken).value, filter, columns);
            var first := Find(t, filter, pageToken, limit, NoFault, columns);
            && first.Success?
            && first.value.users == all[..ClampLimit(limit)]
            && first.value.pageToken != ""
            && DecodeBase64ToUuid(first.value.pageToken) == Success(sel[ClampLimit(limit)].id)
  {
    var cursor := DecodeBase64ToUuid(pageToken).value;
    var n := ClampLimit(limit);
    var sel := Select(t.rows, cursor, filter);
    var all := Listing(t, cursor, filter, columns);
    assert |all| > n;
    assert all[n] == ReadBack(sel[n], columns);
  }

  /** A page read from a token whose cursor leaves the listing `rest` holds the first rows of `rest`. */
  lemma PageAt(t: Table, filter: User, pageToken: string, limit: int, columns: Columns, cursor: Uuid, rest: seq<User>)
    requires DecodeBase64ToUuid(pageToken) == Success(cursor)
    requires Listing(t, cursor, filter, columns) == rest
    ensures Find(t, filter, pageToken, limit, NoFault, columns).Success?
    ensures Find(t, filter, pageToken, limit, NoFault, columns).value.users == rest[..Min(|rest|, ClampLimit(limit))]
  {
  }

  /** The listing from the ID of its k-th row is its suffix from k. */
  lemma ListingFrom(t: Table, cursor: Uuid, filter: User, columns: Columns, k: int)
    requires Valid(t)
    requires 0 <= k < |Select(t.rows, cursor, filter)|
    ensures Listing(t, Select(t.rows, cursor, filter)[k].id, filter, columns) == Listing(t, cursor, filter, columns)[k..]
  {
    SelectFrom(t.rows, cursor, filter, k);
  }

  /** A prefix of n followed by the next n is the prefix of 2n. */
  lemma TwoPages(first: UsersResponse, next: Result<UsersResponse, Error>, all: seq<User>, n: int)
    requires 0 <= n < |all|
    requires first.users == all[..n] && first.pageToken != ""
    requires next.Success? && next.value.users == all[n..][..Min(|all[n..]|, n)]
    ensures Continues(first, next, all, n)
  {
  }

}
