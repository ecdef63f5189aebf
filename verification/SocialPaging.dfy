/** Reading followers and followings page by page, by cursor. */
module SocialPaging {
  import opened Options
  import opened Orders
  import opened B = Bytes
  import opened SocialKeys

  datatype Page = Page(fids: seq<U64>, next: Option<U64>)

  /** Unsigned 64-bit addition of one, which wraps. */
  function After(cursor: U64): U64 {
    if cursor + 1 == U64_LIMIT then 0 else cursor + 1
  }

  function FromCursor(cursor: Option<U64>): Option<U64> {
    if cursor.Some? then Some(After(cursor.value)) else None
  }

  function RowsPast(ids: set<U64>, cursor: Option<U64>): seq<U64> {
    From(ids, Lowest(FromCursor(cursor)))
  }

  /** Reference: the first `limit` rows past the cursor, and a cursor if rows remain. */
  function PageOf(ids: set<U64>, cursor: Option<U64>, limit: nat): Page {
    var rows := RowsPast(ids, cursor);
    if |rows| <= limit then Page(rows, None)
    else Page(rows[..limit], if limit == 0 then None else Some(rows[limit - 1]))
  }

  /** The ids above a cursor. A cursor at the largest id wraps, so all of them lie past it. */
  function Past(ids: set<U64>, cursor: Option<U64>): set<U64> {
    set x | x in ids && (cursor.None? || x > cursor.value || cursor.value == U64_LIMIT - 1)
  }

  /** What a page is: as many of the smallest ids past the cursor as the limit allows, ascending, and a cursor
      exactly if the limit is positive and more ids lie past; it is then the largest id of the page. */
  ghost predicate IsPage(ids: set<U64>, cursor: Option<U64>, limit: nat, page: Page) {
    && |page.fids| <= limit
    && (forall i, j :: 0 <= i < j < |page.fids| ==> page.fids[i] < page.fids[j])
    && (forall x :: x in page.fids ==> x in Past(ids, cursor))
    && (forall x, y :: x in Past(ids, cursor) && x !in page.fids && y in page.fids ==> y < x)
    && (|Past(ids, cursor)| <= limit ==> forall x :: x in Past(ids, cursor) ==> x in page.fids)
    && (|Past(ids, cursor)| > limit ==> |page.fids| == limit)
    && (page.next.Some? <==> limit > 0 && |Past(ids, cursor)| > limit)
    && (page.next.Some? ==> page.next.value in page.fids && forall x :: x in page.fids ==> x <= page.next.value)
  }

  lemma PageIsPage(ids: set<U64>, cursor: Option<U64>, limit: nat)
    ensures IsPage(ids, cursor, limit, PageOf(ids, cursor, limit))
  {
    var rows, past := RowsPast(ids, cursor), Past(ids, cursor);
    assert AtLeast(ids, Lowest(FromCursor(cursor))) == past;
    assert |rows| == |past|;
    FirstRows(rows, past, limit);
  }

  /** The first rows of an ascending listing are its smallest elements. */
  lemma FirstRows(rows: seq<U64>, past: set<U64>, limit: nat)
    requires Ascending(rows, Below) && Elements(rows) == past
    ensures forall x :: x in past <==> x in rows
    ensures limit <= |rows| ==> forall x, y :: x in past && x !in rows[..limit] && y in rows[..limit] ==> y < x
    ensures 0 < limit <= |rows| ==> forall x :: x in rows[..limit] ==> x <= rows[limit - 1]
    ensures forall i, j :: 0 <= i < j < |rows| ==> rows[i] < rows[j]
  {
    assert forall x :: x in rows <==> x in Elements(rows);
    forall i, j | 0 <= i < j < |rows| ensures rows[i] < rows[j] {
      assert Below(rows[i], rows[j]);
    }
  }

  /** `get_followers` and `get_following`: a byte-range scan that collects one entry too many. */
  method GetPage(db: Db, t: Table, owner: U64, cursor: Option<U64>, limit: nat) returns (page: Page)
    requires ValidDb(db)
    ensures page == PageOf(Others(db, t, owner), cursor, limit)
    ensures IsPage(Others(db, t, owner), cursor, limit, page)
  {
    page := CutPage(db, t, owner, cursor, limit);
    PageIsPage(Others(db, t, owner), cursor, limit);
  }

  method CutPage(db: Db, t: Table, owner: U64, cursor: Option<U64>, limit: nat) returns (page: Page)
    requires ValidDb(db)
    ensures page == PageOf(Others(db, t, owner), cursor, limit)
  {
    ghost var rows := RowsPast(Others(db, t, owner), cursor);
    var results := ReadRange(db, t, owner, FromCursor(cursor), limit);
    if |results| > limit {
      results := results[..|results| - 1];
      assert results == rows[..limit];
      page := Page(results, if results == [] then None else Some(results[|results| - 1]));
    } else {
      page := Page(results, None);
    }
  }

  method ReadRange(db: Db, t: Table, owner: U64, from: Option<U64>, limit: nat) returns (results: seq<U64>)
    requires ValidDb(db)
    ensures var rows := From(Others(db, t, owner), Lowest(from));
      results == if |rows| <= limit then rows else rows[..limit + 1]
  {
    var stop := IncrementPrefix(RowPrefix(t, owner));
    ghost var rows := From(Others(db, t, owner), Lowest(from));
    ScanIsRows(db, t, owner, from);
    RowKeysDecode(t, owner, rows);
    results := Collect(Scan(db, StartKey(t, owner, from), stop), limit, rows);
  }

  /** The iteration: stops when the callback has more than `limit` results or after `limit + 1` keys. */
  method Collect(keys: seq<Bytes>, limit: nat, ghost rows: seq<U64>) returns (results: seq<U64>)
    requires |keys| == |rows| && forall i :: 0 <= i < |rows| ==> OtherOf(keys[i]) == Some(rows[i])
    ensures results == if |rows| <= limit then rows else rows[..limit + 1]
  {
    results := [];
    var count := 0;
    for i := 0 to |keys|
      invariant results == rows[..i] && count == i <= limit
    {
      if OtherOf(keys[i]).Some? {
        results := results + [OtherOf(keys[i]).value];
      }
      if |results| > limit {
        break;
      }
      count := count + 1;
      if count >= limit + 1 {
        break;
      }
    }
  }

  // ----- following cursors -------------------------------------------------

  /** Past one element of an ascending listing lie exactly the elements after it. */
  lemma ListingAfter(ids: set<U64>, lowest: U64, rows: seq<U64>, i: nat)
    requires Ascending(rows, Below) && Elements(rows) == AtLeast(ids, lowest) && i + 1 < |rows|
    ensures rows[i] + 1 < U64_LIMIT && From(ids, rows[i] + 1) == rows[i + 1..]
  {
    assert Below(rows[i], rows[i + 1]);
    assert rows[i] in Elements(rows);
    var tail, later := rows[i + 1..], From(ids, rows[i] + 1);
    forall x: U64 ensures x in tail <==> x in Elements(later) {
      if x in tail {
        var j :| i + 1 <= j < |rows| && rows[j] == x;
        assert rows[j] in Elements(rows) && Below(rows[i], rows[j]);
      }
      if x in ids && rows[i] + 1 <= x {
        assert x in Elements(rows);
        var j :| 0 <= j < |rows| && rows[j] == x;
        assert tail[j - i - 1] == x;
      }
    }
    assert StrictTotal(Below);
    AscendingUnique<U64>(later, tail, Below);
  }

  lemma CursorIsLast(ids: set<U64>, cursor: Option<U64>, limit: nat, rows: seq<U64>, next: U64)
    requires rows == RowsPast(ids, cursor) && PageOf(ids, cursor, limit).next == Some(next)
    ensures 1 <= limit < |rows| && next == rows[limit - 1]
  {
  }

  lemma PastCursor(ids: set<U64>, cursor: Option<U64>, rows: seq<U64>, i: nat, next: U64)
    requires rows == RowsPast(ids, cursor) && i + 1 < |rows| && next == rows[i]
    ensures After(next) == next + 1 && RowsPast(ids, Some(next)) == rows[i + 1..]
  {
    ListingAfter(ids, Lowest(FromCursor(cursor)), rows, i);
    RowsPastOne(ids, next);
  }

  lemma RowsPastOne(ids: set<U64>, next: U64)
    requires next + 1 < U64_LIMIT
    ensures After(next) == next + 1 && RowsPast(ids, Some(next)) == From(ids, next + 1)
  {
  }

  /** A returned cursor is never the largest id, so stepping past it does not wrap, and what remains
      after it is what the page left out. */
  lemma NextCursor(ids: set<U64>, cursor: Option<U64>, limit: nat, rows: seq<U64>, next: U64)
    requires rows == RowsPast(ids, cursor) && PageOf(ids, cursor, limit).next == Some(next)
    ensures After(next) == next + 1 && 1 <= limit < |rows|
    ensures RowsPast(ids, Some(next)) == rows[limit..]
  {
    CursorIsLast(ids, cursor, limit, rows, next);
    PastCursor(ids, cursor, rows, limit - 1, next);
  }

  lemma Rejoin(s: seq<U64>, n: nat)
    requires n <= |s|
    ensures s == s[..n] + s[n..]
  {
  }

  /** All pages from a cursor on, read until no cursor comes back. */
  function AllPages(ids: set<U64>, cursor: Option<U64>, limit: nat): seq<U64>
    decreases |RowsPast(ids, cursor)|
  {
    var p := PageOf(ids, cursor, limit);
    if p.next.None? then p.fids
    else
      NextCursor(ids, cursor, limit, RowsPast(ids, cursor), p.next.value);
      p.fids + AllPages(ids, p.next, limit)
  }

  lemma {:induction false} PagesFrom(ids: set<U64>, cursor: Option<U64>, limit: nat)
    requires limit >= 1
    ensures AllPages(ids, cursor, limit) == RowsPast(ids, cursor)
    decreases |RowsPast(ids, cursor)|
  {
    var p := PageOf(ids, cursor, limit);
    if p.next.Some? {
      NextCursor(ids, cursor, limit, RowsPast(ids, cursor), p.next.value);
      PagesFrom(ids, p.next, limit);
      Rejoin(RowsPast(ids, cursor), limit);
    }
  }

  /** Following cursors from the start ends, and yields every row once in ascending order, if and only
      if the page limit is at least one or there is nothing to read. */
  lemma PagingComplete(ids: set<U64>, limit: nat)
    ensures AllPages(ids, None, limit) == Numeric(ids) <==> limit >= 1 || ids == {}
  {
    assert AtLeast(ids, 0) == ids;
    if limit >= 1 {
      PagesFrom(ids, None, limit);
    } else {
      assert PageOf(ids, None, 0) == Page([], None);
    }
  }
}
