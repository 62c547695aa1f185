/**
 * Keyset paging over one snapshot of the filtered transactions, ordered by booking
 * date, creation time and id. The cursor's creation time is a JavaScript `Date`, which
 * holds whole milliseconds, while the column it is compared with holds microseconds.
 */
module Paging {
  import opened Wrappers
  import opened Text

  /** A filtered row: its sort key (`createdAt` in microseconds) and its exported fields. */
  datatype Row = Row(bookingDate: int, createdAt: int, id: string, fields: seq<string>)

  datatype Cursor = Cursor(bookingDate: int, createdAt: int, id: string)

  datatype Page = Page(rows: seq<Row>, nextCursor: Option<Cursor>)

  datatype PagingError = RowLimitExceeded

  const EXPORT_PAGE_SIZE: nat := 500

  /** A timestamp read into a `Date` loses its microseconds. */
  function ToDate(createdAt: int): int { createdAt - createdAt % 1000 }

  function KeyOf(r: Row): Cursor { Cursor(r.bookingDate, r.createdAt, r.id) }

  function CursorAt(r: Row): Cursor { Cursor(r.bookingDate, ToDate(r.createdAt), r.id) }

  predicate Less(a: Cursor, b: Cursor) {
    || a.bookingDate < b.bookingDate
    || (a.bookingDate == b.bookingDate && a.createdAt < b.createdAt)
    || (a.bookingDate == b.bookingDate && a.createdAt == b.createdAt && Before(a.id, b.id))
  }

  // ---------- the query ----------

  /** WHERE (booking_date, created_at, id) > cursor; no condition on the first page. */
  function After(rows: seq<Row>, cursor: Option<Cursor>): seq<Row> {
    if rows == [] then []
    else if cursor.None? || Less(cursor.value, KeyOf(rows[0])) then [rows[0]] + After(rows[1..], cursor)
    else After(rows[1..], cursor)
  }

  function InsertSorted(r: Row, sorted: seq<Row>): seq<Row> {
    if sorted == [] || Less(KeyOf(r), KeyOf(sorted[0])) then [r] + sorted
    else [sorted[0]] + InsertSorted(r, sorted[1..])
  }

  /** ORDER BY booking_date, created_at, id. */
  function OrderBy(rows: seq<Row>): seq<Row> {
    if rows == [] then [] else InsertSorted(rows[0], OrderBy(rows[1..]))
  }

  function Take<T>(s: seq<T>, n: nat): (r: seq<T>)
    ensures |r| == if |s| < n then |s| else n
    ensures r <= s
  {
    if |s| < n then s else s[..n]
  }

  /** One page: one row more than the limit is fetched to learn whether there is another page. */
  function FetchPage(rows: seq<Row>, cursor: Option<Cursor>, limit: nat): (p: Page)
    requires limit >= 1
    ensures p.nextCursor.Some? ==> |p.rows| == limit
  {
    var page := Take(OrderBy(After(rows, cursor)), limit + 1);
    var pageRows := Take(page, limit);
    Page(pageRows, if |page| > limit then Some(CursorAt(pageRows[|pageRows| - 1])) else None)
  }

  /** The loop `do { fetch; push } while (cursor && rows.length <= cap)`. */
  function Follow(rows: seq<Row>, cursor: Option<Cursor>, limit: nat, cap: nat, collected: seq<Row>): seq<Row>
    requires limit >= 1
    decreases if |collected| <= cap then cap + 1 - |collected| else 0
  {
    var page := FetchPage(rows, cursor, limit);
    var now := collected + page.rows;
    if page.nextCursor.Some? && |now| <= cap then Follow(rows, page.nextCursor, limit, cap, now) else now
  }

  /** The archive's transactions, at most `limit` of them. */
  method FetchArchiveTransactions(table: seq<Row>, limit: nat) returns (result: seq<Row>)
    ensures result == Take(Follow(table, None, EXPORT_PAGE_SIZE, limit, []), limit)
  {
    hide FetchPage;
    var rows: seq<Row> := [];
    var page := FetchPage(table, None, EXPORT_PAGE_SIZE);
    rows := rows + page.rows;
    var cursor := page.nextCursor;
    while cursor.Some? && |rows| <= limit
      invariant Follow(table, None, EXPORT_PAGE_SIZE, limit, [])
             == if cursor.Some? && |rows| <= limit then Follow(table, cursor, EXPORT_PAGE_SIZE, limit, rows) else rows
      decreases if cursor.Some? && |rows| <= limit then limit + 1 - |rows| else 0
    {
      page := FetchPage(table, cursor, EXPORT_PAGE_SIZE);
      rows := rows + page.rows;
      cursor := page.nextCursor;
    }
    result := Take(rows, limit);
  }

  /** The rows of an in-memory snapshot; more than `maxRows` of them raise an error. */
  method SnapshotRows(table: seq<Row>, maxRows: nat) returns (result: Result<seq<Row>, PagingError>)
    ensures var rows := Follow(table, None, EXPORT_PAGE_SIZE, maxRows, []);
      result == if |rows| > maxRows then Err(RowLimitExceeded) else Ok(rows)
  {
    hide FetchPage;
    var rows: seq<Row> := [];
    var page := FetchPage(table, None, EXPORT_PAGE_SIZE);
    rows := rows + page.rows;
    var cursor := page.nextCursor;
    while cursor.Some? && |rows| <= maxRows
      invariant Follow(table, None, EXPORT_PAGE_SIZE, maxRows, [])
             == if cursor.Some? && |rows| <= maxRows then Follow(table, cursor, EXPORT_PAGE_SIZE, maxRows, rows) else rows
      decreases if cursor.Some? && |rows| <= maxRows then maxRows + 1 - |rows| else 0
    {
      page := FetchPage(table, cursor, EXPORT_PAGE_SIZE);
      rows := rows + page.rows;
      cursor := page.nextCursor;
    }
    result := if |rows| > maxRows then Err(RowLimitExceeded) else Ok(rows);
  }

  // ---------- the order ----------

  /** The primary key: no two rows share an id. */
  ghost predicate DistinctIds(rows: seq<Row>) { forall i, j :: 0 <= i < j < |rows| ==> rows[i].id != rows[j].id }

  ghost predicate Sorted(rows: seq<Row>) {
    forall i, j :: 0 <= i < j < |rows| ==> Less(KeyOf(rows[i]), KeyOf(rows[j]))
  }

  lemma LessIsStrict(a: Cursor)
    ensures !Less(a, a)
  {
    BeforeIsStrict(a.id);
  }

  lemma LessIsTransitive(a: Cursor, b: Cursor, c: Cursor)
    requires Less(a, b) && Less(b, c)
    ensures Less(a, c)
  {
    if Before(a.id, b.id) && Before(b.id, c.id) { BeforeIsTransitive(a.id, b.id, c.id); }
  }

  lemma LessIsTotal(a: Cursor, b: Cursor)
    ensures Less(a, b) || Less(b, a) || a == b
  {
    BeforeIsTotal(a.id, b.id);
  }

  lemma {:induction false} InsertKeepsRows(r: Row, sorted: seq<Row>)
    ensures multiset(InsertSorted(r, sorted)) == multiset(sorted) + multiset{r}
    ensures |InsertSorted(r, sorted)| == |sorted| + 1
  {
    if sorted != [] && !Less(KeyOf(r), KeyOf(sorted[0])) {
      InsertKeepsRows(r, sorted[1..]);
      assert sorted == [sorted[0]] + sorted[1..];
    }
  }

  /** Ordering rearranges the rows and loses none. */
  lemma {:induction false} OrderByKeepsRows(rows: seq<Row>)
    ensures multiset(OrderBy(rows)) == multiset(rows) && |OrderBy(rows)| == |rows|
  {
    if rows != [] {
      OrderByKeepsRows(rows[1..]);
      InsertKeepsRows(rows[0], OrderBy(rows[1..]));
      assert rows == [rows[0]] + rows[1..];
    }
  }

  lemma {:induction false} InsertSortedIsSorted(r: Row, sorted: seq<Row>)
    requires Sorted(sorted) && forall x :: x in sorted ==> x.id != r.id
    ensures Sorted(InsertSorted(r, sorted))
  {
    hide Less;
    if sorted != [] {
      if Less(KeyOf(r), KeyOf(sorted[0])) {
        forall i | 1 <= i < |sorted| ensures Less(KeyOf(r), KeyOf(sorted[i])) {
          LessIsTransitive(KeyOf(r), KeyOf(sorted[0]), KeyOf(sorted[i]));
        }
      } else {
        var rest := InsertSorted(r, sorted[1..]);
        InsertSortedIsSorted(r, sorted[1..]);
        InsertKeepsRows(r, sorted[1..]);
        LessIsTotal(KeyOf(r), KeyOf(sorted[0]));
        assert sorted[0] in sorted;
        forall x | x in rest ensures Less(KeyOf(sorted[0]), KeyOf(x)) {
          assert x in multiset(rest);
          if x != r {
            assert x in sorted[1..];
          }
        }
      }
    }
  }

  /** Rows with distinct ids come out strictly ascending. */
  lemma {:induction false} OrderByIsSorted(rows: seq<Row>)
    requires DistinctIds(rows)
    ensures Sorted(OrderBy(rows))
  {
    if rows != [] {
      OrderByIsSorted(rows[1..]);
      OrderByKeepsRows(rows[1..]);
      forall x | x in OrderBy(rows[1..]) ensures x.id != rows[0].id {
        assert x in multiset(OrderBy(rows[1..]));
        assert x in rows[1..];
      }
      InsertSortedIsSorted(rows[0], OrderBy(rows[1..]));
    }
  }

  // ---------- a page is a slice of the ordered rows ----------

  lemma {:induction false} AfterOfInsert(r: Row, sorted: seq<Row>, cursor: Option<Cursor>)
    requires Sorted(sorted) && forall x :: x in sorted ==> x.id != r.id
    ensures After(InsertSorted(r, sorted), cursor)
         == if cursor.None? || Less(cursor.value, KeyOf(r)) then InsertSorted(r, After(sorted, cursor)) else After(sorted, cursor)
  {
    hide Less;
    if sorted == [] {
      assert [r][1..] == [];
    } else if Less(KeyOf(r), KeyOf(sorted[0])) {
      assert ([r] + sorted)[1..] == sorted;
      if cursor.None? || Less(cursor.value, KeyOf(r)) {
        if cursor.Some? { LessIsTransitive(cursor.value, KeyOf(r), KeyOf(sorted[0])); }
        assert After(sorted, cursor)[0] == sorted[0];
      }
    } else {
      var rest := InsertSorted(r, sorted[1..]);
      AfterOfInsert(r, sorted[1..], cursor);
      assert ([sorted[0]] + rest)[1..] == rest;
      LessIsTotal(KeyOf(r), KeyOf(sorted[0]));
      assert sorted[0] in sorted;
      if cursor.Some? && !Less(cursor.value, KeyOf(sorted[0])) {
      } else {
        var tail := After(sorted[1..], cursor);
        assert ([sorted[0]] + tail)[1..] == tail;
        if cursor.Some? { LessIsTransitive(cursor.value, KeyOf(sorted[0]), KeyOf(r)); }
      }
    }
  }

  /** Filtering then ordering is ordering then filtering. */
  lemma {:induction false} OrderThenFilter(rows: seq<Row>, cursor: Option<Cursor>)
    requires DistinctIds(rows)
    ensures OrderBy(After(rows, cursor)) == After(OrderBy(rows), cursor)
  {
    if rows != [] {
      hide Less, InsertSorted;
      OrderThenFilter(rows[1..], cursor);
      OrderByIsSorted(rows[1..]);
      OrderByKeepsRows(rows[1..]);
      forall x | x in OrderBy(rows[1..]) ensures x.id != rows[0].id {
        assert x in multiset(OrderBy(rows[1..]));
        assert x in rows[1..];
      }
      AfterOfInsert(rows[0], OrderBy(rows[1..]), cursor);
      if cursor.None? || Less(cursor.value, KeyOf(rows[0])) {
        assert After(rows, cursor)[0] == rows[0] && After(rows, cursor)[1..] == After(rows[1..], cursor);
      }
    }
  }

  /** How many of the ordered rows the cursor has passed. */
  function Passed(sorted: seq<Row>, cursor: Option<Cursor>): (k: nat)
    ensures k <= |sorted|
  {
    if sorted == [] || cursor.None? || Less(cursor.value, KeyOf(sorted[0])) then 0
    else 1 + Passed(sorted[1..], cursor)
  }

  lemma {:induction false} AfterAll(sorted: seq<Row>, cursor: Option<Cursor>)
    requires cursor.None? || forall x :: x in sorted ==> Less(cursor.value, KeyOf(x))
    ensures After(sorted, cursor) == sorted
  {
    hide Less;
    if sorted != [] {
      assert sorted[0] in sorted;
      AfterAll(sorted[1..], cursor);
    }
  }

  /** The rows after a cursor are the ordered rows from where it stands. */
  lemma {:induction false} AfterIsSuffix(sorted: seq<Row>, cursor: Option<Cursor>)
    requires Sorted(sorted)
    ensures After(sorted, cursor) == sorted[Passed(sorted, cursor)..]
    ensures cursor.Some? ==> forall i :: 0 <= i < |sorted| ==> (i < Passed(sorted, cursor) <==> !Less(cursor.value, KeyOf(sorted[i])))
  {
    hide Less;
    if sorted != [] {
      if cursor.None? || Less(cursor.value, KeyOf(sorted[0])) {
        forall x | x in sorted && cursor.Some? ensures Less(cursor.value, KeyOf(x)) {
          if x != sorted[0] {
            LessIsTransitive(cursor.value, KeyOf(sorted[0]), KeyOf(x));
          }
        }
        AfterAll(sorted, cursor);
      } else {
        AfterIsSuffix(sorted[1..], cursor);
      }
    }
  }

  lemma {:induction false} AfterIsInTable(rows: seq<Row>, cursor: Option<Cursor>)
    ensures forall r <- After(rows, cursor) :: r in rows
  {
    hide Less;
    if rows != [] {
      AfterIsInTable(rows[1..], cursor);
      assert forall r <- rows[1..] :: r in rows;
    }
  }

  /** Nothing is collected that is not in the table. */
  lemma {:induction false} FollowedRowsAreInTable(table: seq<Row>, cursor: Option<Cursor>, limit: nat, cap: nat, collected: seq<Row>)
    requires limit >= 1 && forall r <- collected :: r in table
    ensures forall r <- Follow(table, cursor, limit, cap, collected) :: r in table
    decreases if |collected| <= cap then cap + 1 - |collected| else 0
  {
    var page := FetchPage(table, cursor, limit);
    AfterIsInTable(table, cursor);
    OrderByKeepsRows(After(table, cursor));
    forall r | r in page.rows ensures r in table {
      assert r in OrderBy(After(table, cursor));
      assert r in multiset(OrderBy(After(table, cursor)));
    }
    hide FetchPage;
    if page.nextCursor.Some? && |collected + page.rows| <= cap {
      FollowedRowsAreInTable(table, page.nextCursor, limit, cap, collected + page.rows);
    }
  }

  lemma PageIsSlice(table: seq<Row>, cursor: Option<Cursor>, limit: nat, k: nat)
    requires DistinctIds(table) && limit >= 1
    requires k == Passed(OrderBy(table), cursor)
    ensures var s := OrderBy(table);
      && FetchPage(table, cursor, limit).rows == Take(s[k..], limit)
      && FetchPage(table, cursor, limit).nextCursor
         == if k + limit < |s| then Some(CursorAt(s[k + limit - 1])) else None
  {
    hide OrderBy, After, Passed;
    OrderThenFilter(table, cursor);
    OrderByIsSorted(table);
    AfterIsSuffix(OrderBy(table), cursor);
  }

  // ---------- where the next page starts ----------

  predicate WholeMillisecond(r: Row) { r.createdAt % 1000 == 0 }

  /** A cursor taken at row `k - 1` resumes at row `k` if that row's time has no microseconds, and repeats the row otherwise. */
  lemma CursorResumes(sorted: seq<Row>, k: nat)
    requires Sorted(sorted) && 1 <= k <= |sorted|
    ensures var resumed := Passed(sorted, Some(CursorAt(sorted[k - 1])));
      if WholeMillisecond(sorted[k - 1]) then resumed == k else resumed <= k - 1
  {
    hide Passed, After;
    var r := sorted[k - 1];
    var cursor := CursorAt(r);
    AfterIsSuffix(sorted, Some(cursor));
    if WholeMillisecond(r) {
      LessIsStrict(KeyOf(r));
      assert Passed(sorted, Some(cursor)) > k - 1;
      if k < |sorted| {
        assert Less(KeyOf(r), KeyOf(sorted[k]));
      }
    } else {
      assert Less(cursor, KeyOf(r));
    }
  }

  /** Every row on which a page of this size ends, with more to come, has a whole-millisecond time. */
  predicate BoundariesWhole(sorted: seq<Row>, limit: nat, from: nat)
    requires limit >= 1
    decreases if from < |sorted| then |sorted| - from else 0
  {
    from + limit >= |sorted| || (WholeMillisecond(sorted[from + limit - 1]) && BoundariesWhole(sorted, limit, from + limit))
  }

  /** What has been collected is never taken back. */
  lemma {:induction false} FollowOnlyAppends(table: seq<Row>, cursor: Option<Cursor>, limit: nat, cap: nat, collected: seq<Row>)
    requires limit >= 1
    ensures collected + FetchPage(table, cursor, limit).rows <= Follow(table, cursor, limit, cap, collected)
    decreases if |collected| <= cap then cap + 1 - |collected| else 0
  {
    hide FetchPage;
    var page := FetchPage(table, cursor, limit);
    var now := collected + page.rows;
    if page.nextCursor.Some? && |now| <= cap {
      FollowOnlyAppends(table, page.nextCursor, limit, cap, now);
    }
  }

  /** From an exact position the loop collects the following rows, up to the cap or a boundary that repeats. */
  lemma {:induction false} FollowFrom(table: seq<Row>, cursor: Option<Cursor>, limit: nat, cap: nat, k: nat)
    requires DistinctIds(table) && limit >= 1
    requires k <= |table| == |OrderBy(table)| && k == Passed(OrderBy(table), cursor)
    ensures var s := OrderBy(table);
      var all := Follow(table, cursor, limit, cap, s[..k]);
      && (BoundariesWhole(s, limit, k) ==> all <= s && (all == s || |all| > cap))
      && (!BoundariesWhole(s, limit, k) && |s| <= cap ==> !(s <= Take(all, cap)))
    decreases |table| - k
  {
    hide FetchPage, Passed, OrderBy, DistinctIds, Sorted, WholeMillisecond, CursorAt;
    var s := OrderBy(table);
    var page := FetchPage(table, cursor, limit);
    PageIsSlice(table, cursor, limit, k);
    OrderByIsSorted(table);
    if k + limit < |s| {
      assert s[..k] + page.rows == s[..k + limit];
      CursorResumes(s, k + limit);
      if k + limit <= cap {
        if WholeMillisecond(s[k + limit - 1]) {
          FollowFrom(table, page.nextCursor, limit, cap, k + limit);
        } else {
          RepeatedRow(table, page.nextCursor, limit, cap, k + limit);
        }
      }
    } else {
      assert s[..k] + page.rows == s;
    }
  }

  /** A page that starts too early puts an already collected row where the next one belongs. */
  lemma RepeatedRow(table: seq<Row>, cursor: Option<Cursor>, limit: nat, cap: nat, k: nat)
    requires DistinctIds(table) && limit >= 1 && k < |OrderBy(table)|
    requires Passed(OrderBy(table), cursor) < k
    ensures var s := OrderBy(table);
      var all := Follow(table, cursor, limit, cap, s[..k]);
      |all| > k && all[k] == s[Passed(s, cursor)] && all[k] != s[k]
      && (|s| <= cap ==> !(s <= Take(all, cap)))
  {
    hide FetchPage, Passed, OrderBy, DistinctIds, Follow;
    var s := OrderBy(table);
    var all := Follow(table, cursor, limit, cap, s[..k]);
    var j := Passed(s, cursor);
    PageIsSlice(table, cursor, limit, j);
    FollowOnlyAppends(table, cursor, limit, cap, s[..k]);
    OrderByIsSorted(table);
    var page := FetchPage(table, cursor, limit);
    assert (s[..k] + page.rows)[k] == page.rows[0] == s[j];
    LessIsStrict(KeyOf(s[j]));
    assert Less(KeyOf(s[j]), KeyOf(s[k]));
  }

  // ---------- what paging promises ----------

  /**
   * With room for every row, following the cursor to the end gives exactly the ordered rows, none
   * skipped and none repeated, if and only if every row a page ends on has a whole-millisecond time.
   */
  lemma PagingIsExactIffBoundariesWhole(table: seq<Row>, limit: nat, cap: nat)
    requires DistinctIds(table) && limit >= 1 && |table| <= cap
    ensures Follow(table, None, limit, cap, []) == OrderBy(table) <==> BoundariesWhole(OrderBy(table), limit, 0)
  {
    hide Follow, BoundariesWhole, OrderBy;
    OrderByKeepsRows(table);
    NonePassed(OrderBy(table));
    FollowFrom(table, None, limit, cap, 0);
    assert OrderBy(table)[..0] == [];
  }

  lemma NonePassed(sorted: seq<Row>)
    ensures Passed(sorted, None) == 0
  {
  }

  /** Every row on which a page ends, with more to come before the limit, has a whole-millisecond time. */
  predicate WholeBelow(sorted: seq<Row>, size: nat, from: nat, limit: nat)
    requires size >= 1
    decreases if from < |sorted| then |sorted| - from else 0
  {
    || from + size >= |sorted| || from + size >= limit
    || (WholeMillisecond(sorted[from + size - 1]) && WholeBelow(sorted, size, from + size, limit))
  }

  lemma {:induction false} FirstRowsFrom(table: seq<Row>, cursor: Option<Cursor>, size: nat, limit: nat, k: nat)
    requires DistinctIds(table) && size >= 1
    requires k <= |table| == |OrderBy(table)| && k == Passed(OrderBy(table), cursor)
    ensures var s := OrderBy(table);
      Take(Follow(table, cursor, size, limit, s[..k]), limit) == Take(s, limit) <==> WholeBelow(s, size, k, limit)
    decreases |table| - k
  {
    hide FetchPage, Passed, OrderBy, DistinctIds, Sorted, WholeMillisecond, CursorAt;
    var s := OrderBy(table);
    var page := FetchPage(table, cursor, size);
    PageIsSlice(table, cursor, size, k);
    OrderByIsSorted(table);
    if k + size < |s| {
      assert s[..k] + page.rows == s[..k + size];
      CursorResumes(s, k + size);
      if k + size >= limit {
        FollowOnlyAppends(table, cursor, size, limit, s[..k]);
      } else if WholeMillisecond(s[k + size - 1]) {
        FirstRowsFrom(table, page.nextCursor, size, limit, k + size);
      } else {
        RepeatedRow(table, page.nextCursor, size, limit, k + size);
        DiffersAt(Follow(table, page.nextCursor, size, limit, s[..k + size]), s, limit, k + size);
      }
    } else {
      assert s[..k] + page.rows == s;
    }
  }

  lemma DiffersAt(a: seq<Row>, b: seq<Row>, limit: nat, i: nat)
    requires i < |a| && i < |b| && i < limit && a[i] != b[i]
    ensures Take(a, limit) != Take(b, limit)
  {
    assert Take(a, limit)[i] == a[i] && Take(b, limit)[i] == b[i];
  }

  /**
   * The archive holds exactly the first `limit` of the ordered rows if and only if every row that
   * ends a page before the limit, with rows to come, has a whole-millisecond time.
   */
  lemma ArchiveHoldsTheFirstRowsIff(table: seq<Row>, limit: nat)
    requires DistinctIds(table)
    ensures Take(Follow(table, None, EXPORT_PAGE_SIZE, limit, []), limit) == Take(OrderBy(table), limit)
       <==> WholeBelow(OrderBy(table), 500, 0, limit)
  {
    hide Follow, WholeBelow, OrderBy;
    OrderByKeepsRows(table);
    NonePassed(OrderBy(table));
    FirstRowsFrom(table, None, EXPORT_PAGE_SIZE, limit, 0);
    assert OrderBy(table)[..0] == [];
  }

  /** A snapshot is the ordered rows exactly when they fit the row limit and no boundary repeats. */
  lemma SnapshotIsExactIff(table: seq<Row>, maxRows: nat)
    requires DistinctIds(table)
    ensures var rows := Follow(table, None, EXPORT_PAGE_SIZE, maxRows, []);
      |rows| <= maxRows && rows == OrderBy(table)
      <==> |table| <= maxRows && BoundariesWhole(OrderBy(table), 500, 0)
  {
    hide Follow, BoundariesWhole, OrderBy;
    OrderByKeepsRows(table);
    if |table| <= maxRows {
      PagingIsExactIffBoundariesWhole(table, EXPORT_PAGE_SIZE, maxRows);
    }
  }

  /** Rows `g` to `g + size`, say of one import, share a booking date and a creation time within a millisecond. */
  ghost predicate Batch(sorted: seq<Row>, g: nat, size: nat) {
    && g < |sorted| && g + size <= |sorted|
    && (forall i :: g <= i < g + size ==>
          && sorted[i].bookingDate == sorted[g].bookingDate && sorted[i].createdAt == sorted[g].createdAt
          && !WholeMillisecond(sorted[i]))
    && (g > 0 ==> !Less(Cursor(sorted[g].bookingDate, ToDate(sorted[g].createdAt), ""), KeyOf(sorted[g - 1])))
  }

  /**
   * A batch larger than a page traps the cursor: once a page ends inside it, every later page is
   * the batch's first page again.
   */
  lemma BatchTrapsTheCursor(table: seq<Row>, limit: nat, g: nat, i: nat)
    requires DistinctIds(table) && limit >= 1
    requires Batch(OrderBy(table), g, limit + 1) && g <= i < g + limit
    ensures var s := OrderBy(table);
      var page := FetchPage(table, Some(CursorAt(s[i])), limit);
      page.rows == s[g..g + limit] && page.nextCursor == Some(CursorAt(s[g + limit - 1]))
  {
    hide FetchPage, Passed, OrderBy, DistinctIds, Less, CursorAt;
    var s := OrderBy(table);
    var cursor := CursorAt(s[i]);
    OrderByIsSorted(table);
    AfterIsSuffix(s, Some(cursor));
    CursorStandsBefore(s, limit, g, i);
    assert Passed(s, Some(cursor)) == g;
    PageIsSlice(table, Some(cursor), limit, g);
  }

  lemma CursorStandsBefore(s: seq<Row>, limit: nat, g: nat, i: nat)
    requires limit >= 1 && Batch(s, g, limit + 1) && g <= i < g + limit
    ensures Less(CursorAt(s[i]), KeyOf(s[g])) && (g > 0 ==> !Less(CursorAt(s[i]), KeyOf(s[g - 1])))
  {
    if g > 0 { EmptyIdComesFirst(s[i].id, s[g - 1].id); }
  }

  /** A row stored at 1 microsecond past the epoch; its id is `i` letters long. */
  function BatchRow(i: nat): Row { Row(0, 1, seq(i, _ => 'a'), []) }

  function BatchRows(size: nat): (rows: seq<Row>)
    ensures |rows| == size && forall i :: 0 <= i < size ==> rows[i] == BatchRow(i)
  {
    seq(size, i requires i >= 0 => BatchRow(i))
  }

  lemma {:induction false} LongerIsLater(i: nat, j: nat)
    requires i < j
    ensures Before(seq(i, _ => 'a'), seq(j, _ => 'a'))
  {
    var a, b := seq(i, _ => 'a'), seq(j, _ => 'a');
    if i > 0 {
      assert a[1..] == seq(i - 1, _ => 'a') && b[1..] == seq(j - 1, _ => 'a');
      LongerIsLater(i - 1, j - 1);
    }
  }

  lemma {:induction false} OrderedStays(rows: seq<Row>)
    requires Sorted(rows)
    ensures OrderBy(rows) == rows
  {
    hide Less;
    if rows != [] {
      assert Sorted(rows[1..]);
      OrderedStays(rows[1..]);
      if |rows| > 1 { assert Less(KeyOf(rows[0]), KeyOf(rows[1])); }
    }
  }

  /** Any page size has a batch of one microsecond that traps the cursor and is never exported exactly. */
  lemma SomeBatchTraps(limit: nat)
    requires limit >= 1
    ensures var table := BatchRows(limit + 1);
      && DistinctIds(table) && Batch(OrderBy(table), 0, limit + 1)
      && (forall cap :: cap >= limit + 1 ==> Follow(table, None, limit, cap, []) != OrderBy(table))
  {
    hide Follow, OrderBy;
    var table := BatchRows(limit + 1);
    forall i, j | 0 <= i < j < |table| ensures Less(KeyOf(table[i]), KeyOf(table[j])) && table[i].id != table[j].id {
      LongerIsLater(i, j);
      assert |table[i].id| == i && |table[j].id| == j;
    }
    OrderedStays(table);
    assert !WholeMillisecond(table[limit - 1]);
    forall cap: nat | cap >= limit + 1 ensures Follow(table, None, limit, cap, []) != OrderBy(table) {
      PagingIsExactIffBoundariesWhole(table, limit, cap);
    }
  }

  lemma EmptyIdComesFirst(a: string, b: string)
    ensures Before(a, b) ==> Before("", b)
  {
  }
}
