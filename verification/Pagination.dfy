/** Pages of a query's rows: by offset, and by a cursor that holds the last id already seen. */
module Pagination {
  import CursorCodec
  import opened Filters
  import opened Redis

  const DEFAULT_PAGE_SIZE := 20
  const MAX_PAGE_SIZE := 1000

  datatype Page = Page(items: seq<Row>, page: int, perPage: int, total: int, pages: int, hasMore: bool,
      nextCursor: Option<string>)

  /** In ascending order of id, the primary key. */
  ghost predicate Sorted(rows: seq<Row>) {
    forall i, j :: 0 <= i < j < |rows| ==> rows[i].id < rows[j].id
  }

  ghost predicate DistinctIds(rows: seq<Row>) {
    forall i, j :: 0 <= i < j < |rows| ==> rows[i].id != rows[j].id
  }

  datatype Batch = Batch(items: seq<Row>, hasMore: bool) {
    function Last(): Row
      requires items != []
    {
      items[|items| - 1]
    }
  }

  function Fetch(rows: seq<Row>, limit: nat): seq<Row> {
    if |rows| <= limit then rows else rows[..limit]
  }

  /** Fetching one row more than a page holds tells whether there are more. */
  function Lookahead(found: seq<Row>, size: nat): Batch {
    var fetched := Fetch(found, size + 1);
    if |fetched| > size then Batch(fetched[..size], true) else Batch(fetched, false)
  }

  function FrontBatch(found: seq<Row>, size: nat): Batch {
    if |found| > size then Batch(found[..size], true) else Batch(found, false)
  }

  lemma LookaheadSplits(found: seq<Row>, size: nat)
    ensures Lookahead(found, size) == FrontBatch(found, size)
  {
  }

  /** The rows from `offset` on, at most `size` of them. */
  function Slice(rows: seq<Row>, offset: nat, size: nat): seq<Row> {
    Fetch(if offset < |rows| then rows[offset..] else [], size)
  }

  // ----- the cursor strategy -----

  /** No cursor and the empty cursor both mean the start. */
  function LastId(cursor: Option<string>): Outcome<Option<int>> {
    match cursor
    case None => Ok(None)
    case Some(c) =>
      if c == "" then Ok(None)
      else match CursorCodec.DecodeCursor(c)
        case Ok(n) => Ok(Some(n))
        case ValueError => ValueError
  }

  predicate Above(last: Option<int>, id: int) {
    last.None? || id > last.value
  }

  function After(rows: seq<Row>, last: Option<int>): seq<Row> {
    if rows == [] then []
    else (if Above(last, rows[0].id) then [rows[0]] else []) + After(rows[1..], last)
  }

  function CursorPage(rows: seq<Row>, last: Option<int>, size: nat): Page {
    var b := Lookahead(After(rows, last), size);
    var next := if b.hasMore && b.items != [] then Some(CursorCodec.EncodeCursor(b.Last().id)) else None;
    Page(b.items, 1, size, 0, 0, b.hasMore, next)
  }

  function CursorPaginate(rows: seq<Row>, cursor: Option<string>, size: nat): Outcome<Page> {
    match LastId(cursor)
    case Ok(last) => Ok(CursorPage(rows, last, size))
    case _ => ValueError
  }

  // ----- the offset strategy -----

  function Ceiling(total: nat, size: nat): nat
    requires size > 0
  {
    (total + size - 1) / size
  }

  /** A page below 1 gives the database a negative offset. */
  function OffsetPage(rows: seq<Row>, page: int, size: nat, total: nat): Outcome<Page>
    requires size > 0
  {
    var offset := (page - 1) * size;
    if offset < 0 then DbError else Ok(PageAt(rows, offset, page, size, total))
  }

  function PageAt(rows: seq<Row>, offset: nat, page: int, size: nat, total: nat): Page
    requires size > 0
  {
    var b := Lookahead(if offset < |rows| then rows[offset..] else [], size);
    Page(b.items, page, size, total, if total > 0 then Ceiling(total, size) else 0, b.hasMore, None)
  }

  // ----- the facade -----

  function PageSize(perPage: Option<int>): int {
    var n := match perPage case None => DEFAULT_PAGE_SIZE case Some(v) => v;
    if n <= MAX_PAGE_SIZE then n else MAX_PAGE_SIZE
  }

  /** A paginated read of a table in the order the database returns it; `total` is the count that an
      offset page reports. */
  function GetPaginated(table: seq<Row>, filters: FilterDict, page: int, perPage: Option<int>, cursor: Option<string>,
      total: nat)
    : Outcome<Page>
  {
    var size := PageSize(perPage);
    if size < 1 then ValueError
    else match Select(table, filters)
      case ValueError => ValueError
      case DbError => if cursor.Some? && !LastId(cursor).Ok? then ValueError else DbError
      case Ok(rows) => if cursor.Some? then CursorPaginate(rows, cursor, size) else OffsetPage(rows, page, size, total)
  }

  lemma CursorPageItems(rows: seq<Row>, cursor: Option<string>, size: nat)
    requires size > 0 && CursorPaginate(rows, cursor, size).Ok?
    ensures
      var page := CursorPaginate(rows, cursor, size).value;
      && |page.items| <= size == page.perPage
      && (page.hasMore ==> |page.items| == size) && (page.nextCursor.Some? <==> page.hasMore)
      && forall r :: r in page.items ==> r in rows
  {
    var last := LastId(cursor).value;
    forall r | r in CursorPaginate(rows, cursor, size).value.items
      ensures r in rows
    {
      AfterMembers(rows, last, r);
    }
  }

  lemma OffsetPageItems(rows: seq<Row>, page: int, size: nat, total: nat)
    requires size > 0 && OffsetPage(rows, page, size, total).Ok?
    ensures
      var page := OffsetPage(rows, page, size, total).value;
      && |page.items| <= size == page.perPage && page.nextCursor.None?
      && (page.hasMore ==> |page.items| == size)
      && forall r :: r in page.items ==> r in rows
  {
  }

  /** What any answer is: at most the page size, which is at most 1000, of rows that the table holds
      and the filters select. Only a request with a cursor is ever given a next one, so a walk starts
      from the empty cursor and not from none. */
  lemma AnswerIsBounded(table: seq<Row>, filters: FilterDict, page: int, perPage: Option<int>, cursor: Option<string>,
      total: nat)
    ensures
      var answer := GetPaginated(table, filters, page, perPage, cursor, total);
      answer.Ok? ==>
        && 1 <= answer.value.perPage <= MAX_PAGE_SIZE
        && |answer.value.items| <= answer.value.perPage
        && (perPage.Some? ==> answer.value.perPage <= perPage.value)
        && (answer.value.hasMore ==> |answer.value.items| == answer.value.perPage)
        && (answer.value.nextCursor.Some? <==> cursor.Some? && answer.value.hasMore)
        && (forall r :: r in answer.value.items ==>
              r in table && forall i :: 0 <= i < |filters| ==> Holds(ConditionFor(filters[i]), r))
  {
    var answer := GetPaginated(table, filters, page, perPage, cursor, total);
    if answer.Ok? {
      var rows := Select(table, filters).value;
      if cursor.Some? {
        CursorPageItems(rows, cursor, PageSize(perPage));
      } else {
        OffsetPageItems(rows, page, PageSize(perPage), total);
      }
      forall r | r in answer.value.items
        ensures r in table && forall i :: 0 <= i < |filters| ==> Holds(ConditionFor(filters[i]), r)
      {
        FiltersAreConjunction(table, filters, r);
      }
    }
  }

  // ----- rows after an id -----

  lemma {:induction false} AfterMembers(rows: seq<Row>, last: Option<int>, r: Row)
    ensures r in After(rows, last) <==> r in rows && Above(last, r.id)
  {
    if rows != [] {
      AfterMembers(rows[1..], last, r);
    }
  }

  lemma SortedCons(r: Row, rows: seq<Row>)
    requires Sorted(rows) && forall x :: x in rows ==> r.id < x.id
    ensures Sorted([r] + rows)
  {
    var all := [r] + rows;
    forall i, j | 0 <= i < j < |all|
      ensures all[i].id < all[j].id
    {
      assert all[j] == rows[j - 1];
    }
  }

  lemma HeadIsLowest(rows: seq<Row>, x: Row)
    requires Sorted(rows) && rows != [] && x in rows[1..]
    ensures rows[0].id < x.id
  {
    var k :| 0 <= k < |rows[1..]| && rows[1..][k] == x;
    assert rows[k + 1] == x;
  }

  lemma {:induction false} AfterSorted(rows: seq<Row>, last: Option<int>)
    requires Sorted(rows)
    ensures Sorted(After(rows, last))
  {
    if rows != [] {
      var rest := After(rows[1..], last);
      AfterSorted(rows[1..], last);
      forall x | x in rest
        ensures rows[0].id < x.id
      {
        AfterMembers(rows[1..], last, x);
        HeadIsLowest(rows, x);
      }
      SortedCons(rows[0], rest);
      assert [] + rest == rest;
    }
  }

  lemma {:induction false} AfterAll(rows: seq<Row>, last: Option<int>)
    requires forall r :: r in rows ==> Above(last, r.id)
    ensures After(rows, last) == rows
  {
    if rows != [] {
      AfterAll(rows[1..], last);
    }
  }

  lemma {:induction false} AfterNone(rows: seq<Row>, last: Option<int>)
    requires forall r :: r in rows ==> !Above(last, r.id)
    ensures After(rows, last) == []
  {
    if rows != [] {
      AfterNone(rows[1..], last);
    }
  }

  lemma {:induction false} AfterConcat(a: seq<Row>, b: seq<Row>, last: Option<int>)
    ensures After(a + b, last) == After(a, last) + After(b, last)
  {
    if a == [] {
      assert a + b == b;
    } else {
      AfterConcat(a[1..], b, last);
      assert (a + b)[0] == a[0] && (a + b)[1..] == a[1..] + b;
      Associative(if Above(last, a[0].id) then [a[0]] else [], After(a[1..], last), After(b, last));
    }
  }

  lemma {:induction false} AfterTwice(rows: seq<Row>, low: Option<int>, high: int)
    requires Above(low, high)
    ensures After(After(rows, low), Some(high)) == After(rows, Some(high))
  {
    if rows != [] {
      AfterTwice(rows[1..], low, high);
      var head := if Above(low, rows[0].id) then [rows[0]] else [];
      AfterConcat(head, After(rows[1..], low), Some(high));
    }
  }

  lemma DistinctCons(r: Row, rows: seq<Row>)
    requires DistinctIds(rows) && forall x :: x in rows ==> r.id != x.id
    ensures DistinctIds([r] + rows)
  {
    var all := [r] + rows;
    forall i, j | 0 <= i < j < |all|
      ensures all[i].id != all[j].id
    {
      assert all[j] == rows[j - 1];
    }
  }

  lemma {:induction false} AfterDistinct(rows: seq<Row>, last: Option<int>)
    requires DistinctIds(rows)
    ensures DistinctIds(After(rows, last))
  {
    if rows != [] {
      var rest := After(rows[1..], last);
      AfterDistinct(rows[1..], last);
      forall x | x in rest
        ensures rows[0].id != x.id
      {
        AfterMembers(rows[1..], last, x);
        var k :| 0 <= k < |rows[1..]| && rows[1..][k] == x;
        assert rows[k + 1] == x;
      }
      DistinctCons(rows[0], rest);
      assert [] + rest == rest;
    }
  }

  // ----- a cursor walk while the table changes -----

  /** The cursor a page hands out names its last row. */
  lemma NextCursorMeans(rows: seq<Row>, last: Option<int>, size: nat)
    requires size > 0
    ensures
      var p := CursorPage(rows, last, size);
      && (p.hasMore <==> p.nextCursor.Some?)
      && (p.hasMore ==> p.items != [] && LastId(p.nextCursor) == Ok(Some(p.items[|p.items| - 1].id)))
  {
    var p := CursorPage(rows, last, size);
    if p.hasMore {
      var id := p.items[|p.items| - 1].id;
      CursorCodec.CursorRoundTrip(id);
      CursorCodec.CursorsAreDistinct(id, id);
    }
  }

  /** Pages fetched by following next_cursor from the start. `snapshots[i]` is the whole table at the
      time of page i; between pages it may change in any way. */
  datatype Walk = Walk(size: nat, query: seq<Condition>, snapshots: seq<seq<Row>>, pages: seq<Page>) {

    function Cursor(i: nat): Option<string>
      requires i <= |pages|
    {
      if i == 0 then Some("") else pages[i - 1].nextCursor
    }

    ghost predicate Turned(i: nat)
      requires i < |pages| == |snapshots|
    {
      && Sorted(snapshots[i])
      && Cursor(i).Some?
      && CursorPaginate(Where(snapshots[i], query), Cursor(i), size) == Ok(pages[i])
    }

    ghost predicate Valid() {
      && size >= 1
      && |pages| == |snapshots|
      && forall i: nat {:trigger Turned(i)} :: i < |pages| ==> Turned(i)
    }

    /** The last page offered no next cursor. */
    predicate Completed() {
      pages != [] && pages[|pages| - 1].nextCursor.None?
    }

    /** The highest id seen before page i, none at the start. */
    function Seen(i: nat): Option<int>
      requires i <= |pages|
    {
      match LastId(Cursor(i)) case Ok(last) => last case _ => None
    }
  }

  function Items(pages: seq<Page>): seq<Row> {
    if pages == [] then [] else Items(pages[..|pages| - 1]) + pages[|pages| - 1].items
  }

  lemma {:induction false} WhereSorted(rows: seq<Row>, query: seq<Condition>)
    requires Sorted(rows)
    ensures Sorted(Where(rows, query))
  {
    if rows != [] {
      var rest := Where(rows[1..], query);
      WhereSorted(rows[1..], query);
      forall x | x in rest
        ensures rows[0].id < x.id
      {
        WhereMembers(rows[1..], query, x);
        HeadIsLowest(rows, x);
      }
      SortedCons(rows[0], rest);
      assert [] + rest == rest;
    }
  }

  /** The first rows of a sorted list are those up to the last of them. */
  lemma FrontOfSorted(rows: seq<Row>, size: nat, r: Row)
    requires Sorted(rows) && 0 < size <= |rows|
    ensures r in rows[..size] <==> r in rows && r.id <= rows[size - 1].id
  {
    if r in rows {
      var k :| 0 <= k < |rows| && rows[k] == r;
      assert k < size ==> rows[..size][k] == r;
      assert k >= size ==> rows[size - 1].id < rows[k].id;
    }
  }

  /** A page of a sorted table holds exactly the rows above the cursor and, if there are more, up to
      the page's own last id. */
  lemma PageContents(rows: seq<Row>, last: Option<int>, size: nat, r: Row)
    requires Sorted(rows) && size >= 1
    ensures
      var p := CursorPage(rows, last, size);
      && Sorted(p.items)
      && (p.hasMore ==> p.items != [])
      && (r in p.items <==> r in rows && Above(last, r.id) && (p.hasMore ==> r.id <= p.items[|p.items| - 1].id))
  {
    var found := After(rows, last);
    AfterSorted(rows, last);
    AfterMembers(rows, last, r);
    FrontContents(found, size, r);
    LookaheadSplits(found, size);
    assert CursorPage(rows, last, size).items == FrontBatch(found, size).items;
  }

  lemma FrontContents(found: seq<Row>, size: nat, r: Row)
    requires Sorted(found) && size >= 1
    ensures
      var b := FrontBatch(found, size);
      && Sorted(b.items)
      && (b.hasMore ==> b.items != [])
      && (r in b.items <==> r in found && (b.hasMore ==> r.id <= b.items[|b.items| - 1].id))
  {
    if |found| > size {
      FrontOfSorted(found, size, r);
    }
  }

  /** One page of a walk: where it starts, and what is on it. */
  lemma WalkPage(w: Walk, i: nat, r: Row)
    requires w.Valid() && i < |w.pages|
    ensures
      var p := w.pages[i];
      && Sorted(p.items)
      && (p.nextCursor.Some? ==> p.items != [] && w.Seen(i + 1) == Some(p.items[|p.items| - 1].id))
      && (r in p.items <==>
            r in Where(w.snapshots[i], w.query) && Above(w.Seen(i), r.id) &&
                (p.nextCursor.Some? ==> r.id <= w.Seen(i + 1).value))
  {
    assert w.Turned(i);
    var p := w.pages[i];
    WhereSorted(w.snapshots[i], w.query);
    PageContents(Where(w.snapshots[i], w.query), w.Seen(i), w.size, r);
    NextCursorMeans(Where(w.snapshots[i], w.query), w.Seen(i), w.size);
  }

  /** However the table changes between the pages, the ids returned strictly increase; so none is
      ever returned twice. */
  lemma {:induction false} WalkIncreases(w: Walk, n: nat)
    requires w.Valid() && n <= |w.pages|
    ensures Sorted(Items(w.pages[..n]))
    ensures n < |w.pages| ==> forall r :: r in Items(w.pages[..n]) ==> !Above(w.Seen(n), r.id)
  {
    if n > 0 {
      WalkIncreases(w, n - 1);
      var p := w.pages[n - 1];
      assert w.pages[..n][..n - 1] == w.pages[..n - 1];
      forall r | r in p.items
        ensures Above(w.Seen(n - 1), r.id)
      {
        WalkPage(w, n - 1, r);
      }
      WalkPage(w, n - 1, Row(0, ""));
      AppendAbove(Items(w.pages[..n - 1]), p.items, w.Seen(n - 1));
      if n < |w.pages| {
        assert w.Turned(n);
        WalkPage(w, n - 1, p.items[|p.items| - 1]);
        BelowSeen(w, n, Items(w.pages[..n - 1]), p.items);
      }
    }
  }

  lemma AppendAbove(low: seq<Row>, high: seq<Row>, last: Option<int>)
    requires Sorted(low) && Sorted(high)
    requires forall r :: r in low ==> !Above(last, r.id)
    requires forall r :: r in high ==> Above(last, r.id)
    ensures Sorted(low + high)
  {
    var all := low + high;
    forall i, j | 0 <= i < j < |all|
      ensures all[i].id < all[j].id
    {
      if i < |low| <= j {
        assert all[i] in low && all[j] in high;
      }
    }
  }

  lemma BelowSeen(w: Walk, n: nat, low: seq<Row>, items: seq<Row>)
    requires w.Valid() && 0 < n < |w.pages| && items == w.pages[n - 1].items
    requires w.Seen(n).Some? && Above(w.Seen(n - 1), w.Seen(n).value)
    requires forall r :: r in low ==> !Above(w.Seen(n - 1), r.id)
    ensures forall r :: r in low + items ==> !Above(w.Seen(n), r.id)
  {
    assert w.Turned(n);
    forall r | r in items
      ensures !Above(w.Seen(n), r.id)
    {
      WalkPage(w, n - 1, r);
    }
  }

  /** A completed walk in detail: page i holds exactly the matching rows of its own snapshot whose id
      lies in the page's interval, and the intervals cover every id from the lowest to the highest. */
  lemma WalkReturnsIntervals(w: Walk, i: nat, r: Row)
    requires w.Valid() && w.Completed() && i < |w.pages|
    ensures r in w.pages[i].items <==>
        && r in w.snapshots[i] && Selects(w.query, r)
        && Above(w.Seen(i), r.id)
        && (i == |w.pages| - 1 || !Above(w.Seen(i + 1), r.id))
    ensures w.Seen(0).None? && (i < |w.pages| - 1 ==> w.Seen(i + 1).Some?)
  {
    WalkPage(w, i, r);
    WhereMembers(w.snapshots[i], w.query, r);
    if i < |w.pages| - 1 {
      assert w.Turned(i + 1);
    }
  }

  ghost predicate Stands(rows: seq<Row>, query: seq<Condition>, id: int) {
    exists r :: r in rows && r.id == id && Selects(query, r)
  }

  ghost predicate OnceIn(rows: seq<Row>, id: int) {
    exists k :: 0 <= k < |rows| && rows[k].id == id && (forall m :: 0 <= m < |rows| && m != k ==> rows[m].id != id)
  }

  /** A completed walk returns, exactly once, every id under which a matching row stood at the time of
      every page. */
  lemma WalkReturnsAllThatStays(w: Walk, id: int)
    requires w.Valid() && w.Completed()
    requires forall i :: 0 <= i < |w.pages| ==> Stands(w.snapshots[i], w.query, id)
    ensures OnceIn(Items(w.pages), id)
  {
    var i := IntervalOf(w, id, 0);
    assert Stands(w.snapshots[i], w.query, id);
    var r :| r in w.snapshots[i] && r.id == id && Selects(w.query, r);
    WalkReturnsIntervals(w, i, r);
    ItemsContain(w.pages, i, r);
    assert w.pages[..|w.pages|] == w.pages;
    WalkIncreases(w, |w.pages|);
    SortedOnce(Items(w.pages), r);
  }

  lemma SortedOnce(rows: seq<Row>, r: Row)
    requires Sorted(rows) && r in rows
    ensures OnceIn(rows, r.id)
  {
    var k :| 0 <= k < |rows| && rows[k] == r;
    forall m | 0 <= m < |rows| && m != k
      ensures rows[m].id != r.id
    {
      assert m < k || k < m;
    }
  }

  lemma {:induction false} IntervalOf(w: Walk, id: int, from: nat) returns (i: nat)
    requires w.Valid() && w.Completed() && from < |w.pages| && Above(w.Seen(from), id)
    ensures i < |w.pages| && Above(w.Seen(i), id) && (i == |w.pages| - 1 || !Above(w.Seen(i + 1), id))
    decreases |w.pages| - from
  {
    if from == |w.pages| - 1 || !Above(w.Seen(from + 1), id) {
      i := from;
    } else {
      i := IntervalOf(w, id, from + 1);
    }
  }

  lemma {:induction false} ItemsContain(pages: seq<Page>, i: nat, r: Row)
    requires i < |pages| && r in pages[i].items
    ensures r in Items(pages)
  {
    if i < |pages| - 1 {
      ItemsContain(pages[..|pages| - 1], i, r);
    }
  }

  // ----- a fixed table: offset pages and the cursor walk -----

  lemma CeilingAbove(page: nat, total: nat, size: nat)
    requires size > 0
    ensures page < Ceiling(total, size) <==> page * size < total
  {
    var q := Ceiling(total, size);
    assert q * size <= total + size - 1 < (q + 1) * size;
    if page < q {
      assert (page + 1) * size <= q * size;
    } else {
      assert q * size <= page * size;
    }
  }

  lemma PageIsSlice(rows: seq<Row>, offset: nat, page: int, size: nat, total: nat)
    requires size > 0
    ensures
      var p := PageAt(rows, offset, page, size, total);
      p.items == Slice(rows, offset, size) && (p.hasMore <==> offset + size < |rows|)
  {
    if offset + size < |rows| {
      assert rows[offset..][..size + 1][..size] == rows[offset..][..size];
    }
  }

  /** Page `page` of the offset strategy is the slice of rows it names. There is more exactly when the
      rows go on, whatever total the count cache supplied. */
  lemma OffsetPageIsSlice(rows: seq<Row>, page: nat, size: nat, total: nat)
    requires size > 0 && page >= 1
    ensures
      var o := OffsetPage(rows, page, size, total);
      && o.Ok?
      && o.value.items == Slice(rows, (page - 1) * size, size)
      && (o.value.hasMore <==> page * size < |rows|)
  {
    NextOffset(page - 1, (page - 1) * size, size);
    PageIsSlice(rows, (page - 1) * size, page, size, total);
  }

  function OffsetItems(rows: seq<Row>, pages: nat, size: nat, total: nat): seq<Row>
    requires size > 0
  {
    if pages == 0 then []
    else OffsetItems(rows, pages - 1, size, total) + PageAt(rows, (pages - 1) * size, pages, size, total).items
  }

  lemma ExtendPrefix(rows: seq<Row>, offset: nat, size: nat)
    ensures Fetch(rows, offset) + Slice(rows, offset, size) == Fetch(rows, offset + size)
  {
    if offset + size < |rows| {
      assert rows[..offset + size] == rows[..offset] + rows[offset..][..size];
    }
  }

  lemma {:induction false} OffsetItemsArePrefix(rows: seq<Row>, pages: nat, size: nat, total: nat)
    requires size > 0
    ensures OffsetItems(rows, pages, size, total) == Fetch(rows, pages * size)
  {
    if pages == 0 {
      assert Fetch(rows, 0) == [];
    } else {
      OffsetItemsArePrefix(rows, pages - 1, size, total);
      NextOffset(pages - 1, (pages - 1) * size, size);
      PageIsSlice(rows, (pages - 1) * size, pages, size, total);
      ExtendPrefix(rows, (pages - 1) * size, size);
    }
  }

  lemma AllItems(rows: seq<Row>, size: nat)
    requires size > 0
    ensures OffsetItems(rows, Ceiling(|rows|, size), size, |rows|) == rows
  {
    OffsetItemsArePrefix(rows, Ceiling(|rows|, size), size, |rows|);
    CeilingAbove(Ceiling(|rows|, size), |rows|, size);
  }

  lemma PageAmongAll(rows: seq<Row>, size: nat, page: nat)
    requires size > 0 && page >= 1
    ensures
      var o, pages := OffsetPage(rows, page, size, |rows|), Ceiling(|rows|, size);
      && o.Ok? && o.value.pages == pages
      && (o.value.hasMore <==> page < pages)
      && (o.value.items == [] <==> page > pages)
  {
    OffsetPageIsSlice(rows, page, size, |rows|);
    CeilingAbove(0, |rows|, size);
    CeilingAbove(page, |rows|, size);
    CeilingAbove(page - 1, |rows|, size);
  }

  /** With a fresh total, the pages 1 to `pages` together are the whole list, each but the last says
      there is more, and no page beyond them holds anything. */
  lemma OffsetPagesAreAll(rows: seq<Row>, size: nat, page: nat)
    requires size > 0 && page >= 1
    ensures
      var p := OffsetPage(rows, page, size, |rows|).value;
      && p.pages == Ceiling(|rows|, size)
      && OffsetItems(rows, p.pages, size, |rows|) == rows
      && (p.hasMore <==> page < p.pages)
      && (p.items == [] <==> page > p.pages)
  {
    AllItems(rows, size);
    PageAmongAll(rows, size, page);
  }

  /** Following the cursors over a table that does not change. */
  function CursorWalk(rows: seq<Row>, last: Option<int>, size: nat): seq<Batch>
    requires size > 0
    decreases |After(rows, last)|
  {
    var b := Lookahead(After(rows, last), size);
    if !b.hasMore then [b]
    else
      LaterIsShorter(rows, last, b.Last());
      [b] + CursorWalk(rows, Some(b.Last().id), size)
  }

  lemma LaterIsShorter(rows: seq<Row>, last: Option<int>, r: Row)
    requires r in After(rows, last)
    ensures Above(last, r.id) && |After(rows, Some(r.id))| < |After(rows, last)|
  {
    AfterMembers(rows, last, r);
    AfterTwice(rows, last, r.id);
    SomeLeftOut(After(rows, last), Some(r.id), r);
  }

  lemma {:induction false} SomeLeftOut(rows: seq<Row>, last: Option<int>, r: Row)
    requires r in rows && !Above(last, r.id)
    ensures |After(rows, last)| < |rows|
  {
    if r in rows[1..] {
      SomeLeftOut(rows[1..], last, r);
    } else {
      NoLonger(rows[1..], last);
    }
  }

  lemma {:induction false} NoLonger(rows: seq<Row>, last: Option<int>)
    ensures |After(rows, last)| <= |rows|
  {
    if rows != [] {
      NoLonger(rows[1..], last);
    }
  }

  function Walked(batches: seq<Batch>): seq<Row> {
    if batches == [] then [] else batches[0].items + Walked(batches[1..])
  }

  lemma WalkedCons(b: Batch, later: seq<Batch>)
    ensures Walked([b] + later) == b.items + Walked(later)
  {
    assert ([b] + later)[1..] == later;
  }

  /** The first batch of a walk and the walk from its last row on. */
  lemma WalkCons(rows: seq<Row>, last: Option<int>, size: nat) returns (all: seq<Row>, walk: seq<Batch>, cut: Row)
    requires size > 0
    ensures all == After(rows, last) && walk == CursorWalk(rows, last, size)
    ensures if |all| <= size then walk == [Batch(all, false)]
            else
              && cut == all[size - 1]
              && walk == [Batch(all[..size], true)] + CursorWalk(rows, Some(cut.id), size)
              && After(rows, Some(cut.id)) == After(all, Some(cut.id))
              && |After(rows, Some(cut.id))| < |all|
  {
    all, walk, cut := After(rows, last), CursorWalk(rows, last, size), Row(0, "");
    LookaheadSplits(all, size);
    if |all| > size {
      cut := all[size - 1];
      assert Lookahead(all, size).Last() == cut;
      LaterIsShorter(rows, last, cut);
      AfterTwice(rows, last, cut.id);
    }
  }

  /** No row among the first `b` has an id above that of the last of them, and every later row has. */
  ghost predicate CleanCut(rows: seq<Row>, b: nat)
    requires 0 < b < |rows|
  {
    && (forall i :: 0 <= i < b ==> rows[i].id <= rows[b - 1].id)
    && (forall j :: b <= j < |rows| ==> rows[j].id > rows[b - 1].id)
  }

  /** Page after page, the cut is clean. */
  ghost predicate CutsCleanly(rows: seq<Row>, size: nat)
    requires size > 0
  {
    |rows| <= size || (CleanCut(rows, size) && CutsCleanly(rows[size..], size))
  }

  /** The data query carries no ORDER BY. A walk over the rows in whatever order the database returns
      them yields exactly those rows if and only if that order cuts cleanly at the page boundaries. */
  lemma WalkNeedsOrder(rows: seq<Row>, size: nat)
    requires size > 0 && DistinctIds(rows)
    ensures Walked(CursorWalk(rows, None, size)) == rows <==> CutsCleanly(rows, size)
  {
    AfterAll(rows, None);
    WalkFrom(rows, None, size);
  }

  lemma {:induction false} WalkFrom(rows: seq<Row>, last: Option<int>, size: nat)
    requires size > 0 && DistinctIds(rows)
    ensures Walked(CursorWalk(rows, last, size)) == After(rows, last) <==> CutsCleanly(After(rows, last), size)
    decreases |After(rows, last)|
  {
    AfterDistinct(rows, last);
    var all, walk, cut := WalkCons(rows, last, size);
    if |all| > size {
      WalkFrom(rows, Some(cut.id), size);
      var later := GoesOnCleanly(rows, all, cut.id, size);
      WalkedCons(Batch(all[..size], true), CursorWalk(rows, Some(cut.id), size));
      SameTail(all, size, later);
    } else {
      WalkedCons(Batch(all, false), []);
    }
  }

  lemma SameTail(all: seq<Row>, size: nat, later: seq<Row>)
    requires size <= |all|
    ensures all[..size] + later == all <==> later == all[size..]
  {
    if all[..size] + later == all {
      assert later == (all[..size] + later)[size..];
    }
  }

  lemma GoesOnCleanly(rows: seq<Row>, all: seq<Row>, cut: int, size: nat) returns (later: seq<Row>)
    requires 0 < size < |all| && DistinctIds(all) && cut == all[size - 1].id
    requires After(rows, Some(cut)) == After(all, Some(cut))
    requires Walked(CursorWalk(rows, Some(cut), size)) == After(rows, Some(cut)) <==>
        CutsCleanly(After(rows, Some(cut)), size)
    ensures later == Walked(CursorWalk(rows, Some(cut), size))
    ensures later == all[size..] <==> CutsCleanly(all, size)
  {
    later := Walked(CursorWalk(rows, Some(cut), size));
    CutInTwo(all, size);
    if later == all[size..] {
      LaterIsClean(rows, all, cut, size);
    }
  }

  lemma CutInTwo(all: seq<Row>, size: nat)
    requires 0 < size < |all|
    ensures
      var cut := Some(all[size - 1].id);
      && After(all, cut) == After(all[..size], cut) + After(all[size..], cut)
      && (CleanCut(all, size) ==> After(all, cut) == all[size..])
  {
    var cut := Some(all[size - 1].id);
    AfterConcat(all[..size], all[size..], cut);
    assert all == all[..size] + all[size..];
    if CleanCut(all, size) {
      AfterNone(all[..size], cut);
      AfterAll(all[size..], cut);
    }
  }

  /** If the walk goes on with exactly the rows left over, the cut was clean. */
  lemma LaterIsClean(rows: seq<Row>, all: seq<Row>, cut: int, size: nat)
    requires 0 < size < |all| && DistinctIds(all) && cut == all[size - 1].id
    requires After(rows, Some(cut)) == After(all[..size], Some(cut)) + After(all[size..], Some(cut))
    requires Walked(CursorWalk(rows, Some(cut), size)) == all[size..]
    ensures CleanCut(all, size)
  {
    var found, walk, _ := WalkCons(rows, Some(cut), size);
    WalkStaysIn(rows, Some(cut), size);
    forall j | size <= j < |all|
      ensures all[j].id > cut
    {
      assert all[j] == all[size..][j - size];
      AfterMembers(rows, Some(cut), all[j]);
    }
    var early := After(all[..size], Some(cut));
    assert found[0] == all[size..][0] == all[size];
    assert early == [] by {
      if early != [] {
        AfterMembers(all[..size], Some(cut), early[0]);
      }
    }
    forall i | 0 <= i < size
      ensures all[i].id <= cut
    {
      assert all[i] == all[..size][i];
      AfterMembers(all[..size], Some(cut), all[i]);
    }
  }

  lemma {:induction false} WalkStaysIn(rows: seq<Row>, last: Option<int>, size: nat)
    requires size > 0
    ensures forall r :: r in Walked(CursorWalk(rows, last, size)) ==> r in After(rows, last)
    decreases |After(rows, last)|
  {
    var all, walk, cut := WalkCons(rows, last, size);
    if |all| > size {
      WalkStaysIn(rows, Some(cut.id), size);
      forall x | x in After(rows, Some(cut.id))
        ensures x in all
      {
        AfterMembers(all, Some(cut.id), x);
      }
      WalkedCons(Batch(all[..size], true), CursorWalk(rows, Some(cut.id), size));
    } else {
      WalkedCons(Batch(all, false), []);
    }
  }

  /** In id order the cursor walk returns the whole list. */
  lemma WalkIsWhole(rows: seq<Row>, size: nat)
    requires size > 0 && Sorted(rows)
    ensures Walked(CursorWalk(rows, None, size)) == rows
  {
    WalkNeedsOrder(rows, size);
    SortedCutsCleanly(rows, size);
  }

  lemma {:induction false} SortedCutsCleanly(rows: seq<Row>, size: nat)
    requires size > 0 && Sorted(rows)
    ensures CutsCleanly(rows, size)
  {
    if |rows| > size {
      SortedCutsCleanly(rows[size..], size);
    }
  }

  /** These batches are the offset pages from the given number on. */
  ghost predicate AreOffsetPages(batches: seq<Batch>, rows: seq<Row>, number: nat, size: nat, total: nat)
    requires size > 0
  {
    batches == []
    || (IsOffsetPage(batches[0], rows, number, size, total) &&
        AreOffsetPages(batches[1..], rows, number + 1, size, total))
  }

  ghost predicate IsOffsetPage(b: Batch, rows: seq<Row>, number: nat, size: nat, total: nat)
    requires size > 0
  {
    var o := OffsetPage(rows, number, size, total);
    o.Ok? && b == Batch(o.value.items, o.value.hasMore)
  }

  /** In id order the rest of a cursor walk that has seen n pages is the offset pages from n + 1 on,
      and takes max(1, pages of that rest) steps. */
  lemma CursorWalkIsOffsetPages(rows: seq<Row>, last: Option<int>, n: nat, size: nat, total: nat)
    requires size > 0 && Sorted(rows) && After(rows, last) == Slice(rows, n * size, |rows|) && n * size <= |rows|
    ensures AreOffsetPages(CursorWalk(rows, last, size), rows, n + 1, size, total)
    ensures |CursorWalk(rows, last, size)| == if After(rows, last) == [] then 1 else Ceiling(|After(rows, last)|, size)
  {
    WalkPagesAt(rows, last, n, n * size, size, total);
    WalkLength(rows, last, size);
  }

  /** From the start: the walk over a sorted table is its offset pages from the first on, in
      max(1, pages) steps. */
  lemma WholeWalkIsOffsetPages(rows: seq<Row>, size: nat, total: nat) returns (walk: seq<Batch>, first: nat)
    requires size > 0 && Sorted(rows)
    ensures walk == CursorWalk(rows, None, size) && first == 1 && AreOffsetPages(walk, rows, first, size, total)
    ensures |walk| == if rows == [] then 1 else Ceiling(|rows|, size)
  {
    var n: nat, last: Option<int> := 0, None;
    walk, first := CursorWalk(rows, last, size), n + 1;
    AfterAll(rows, last);
    WholeSlice(rows, n, size);
    CursorWalkIsOffsetPages(rows, last, n, size, total);
  }

  lemma WholeSlice(rows: seq<Row>, n: nat, size: nat)
    requires n == 0
    ensures n * size == 0 && Slice(rows, n * size, |rows|) == rows
  {
  }

  /** These batches are slices of the rows, the first at `offset`. */
  ghost predicate AreSlices(batches: seq<Batch>, rows: seq<Row>, offset: nat, size: nat) {
    batches == []
    || (batches[0] == FrontBatch(Slice(rows, offset, |rows|), size) &&
        AreSlices(batches[1..], rows, offset + size, size))
  }

  lemma WalkPagesAt(rows: seq<Row>, last: Option<int>, n: nat, offset: nat, size: nat, total: nat)
    requires size > 0 && Sorted(rows) && offset == n * size && After(rows, last) == Slice(rows, offset, |rows|)
    ensures AreOffsetPages(CursorWalk(rows, last, size), rows, n + 1, size, total)
  {
    WalkGoesThrough(rows, last, size);
    FrontIsSlices(rows, offset, size);
    SlicesAreOffsetPages(CursorWalk(rows, last, size), rows, n, offset, size, total);
  }

  /** Batches cut from the front of a list. */
  function FrontBatches(found: seq<Row>, size: nat): seq<Batch>
    requires size > 0
  {
    [FrontBatch(found, size)] + if |found| > size then FrontBatches(found[size..], size) else []
  }

  lemma {:induction false} WalkGoesThrough(rows: seq<Row>, last: Option<int>, size: nat)
    requires size > 0 && Sorted(rows)
    ensures CursorWalk(rows, last, size) == FrontBatches(After(rows, last), size)
    decreases |After(rows, last)|
  {
    var all, walk, cut := WalkCons(rows, last, size);
    if |all| > size {
      AfterSorted(rows, last);
      AfterCut(all, size);
      WalkGoesThrough(rows, Some(cut.id), size);
    }
  }

  lemma {:induction false} FrontIsSlices(rows: seq<Row>, offset: nat, size: nat)
    requires size > 0
    ensures AreSlices(FrontBatches(Slice(rows, offset, |rows|), size), rows, offset, size)
    decreases |Slice(rows, offset, |rows|)|
  {
    var found := Slice(rows, offset, |rows|);
    if |found| > size {
      assert found[size..] == Slice(rows, offset + size, |rows|);
      FrontIsSlices(rows, offset + size, size);
      SlicesCons(FrontBatch(found, size), FrontBatches(found[size..], size), rows, offset, size);
    } else {
      SlicesCons(FrontBatch(found, size), [], rows, offset, size);
    }
  }

  lemma SlicesCons(b: Batch, later: seq<Batch>, rows: seq<Row>, offset: nat, size: nat)
    requires b == FrontBatch(Slice(rows, offset, |rows|), size) && AreSlices(later, rows, offset + size, size)
    ensures AreSlices([b] + later, rows, offset, size)
  {
    assert ([b] + later)[1..] == later;
  }

  lemma {:induction false} SlicesAreOffsetPages(batches: seq<Batch>, rows: seq<Row>, n: nat, offset: nat, size: nat,
      total: nat)
    requires size > 0 && offset == n * size && AreSlices(batches, rows, offset, size)
    ensures AreOffsetPages(batches, rows, n + 1, size, total)
  {
    if batches != [] {
      FirstIsOffsetPage(rows, Slice(rows, offset, |rows|), n, offset, size, total);
      NextOffset(n, offset, size);
      SlicesAreOffsetPages(batches[1..], rows, n + 1, offset + size, size, total);
    }
  }

  lemma {:induction false} WalkLength(rows: seq<Row>, last: Option<int>, size: nat)
    requires size > 0 && Sorted(rows)
    ensures |CursorWalk(rows, last, size)| == if After(rows, last) == [] then 1 else Ceiling(|After(rows, last)|, size)
    decreases |After(rows, last)|
  {
    var all, walk, cut := WalkCons(rows, last, size);
    CeilingStep(|all|, size);
    if |all| > size {
      AfterSorted(rows, last);
      AfterCut(all, size);
      WalkLength(rows, Some(cut.id), size);
    }
  }

  lemma CeilingStep(total: nat, size: nat)
    requires size > 0
    ensures if total == 0 then Ceiling(total, size) == 0
            else if total <= size then Ceiling(total, size) == 1
            else Ceiling(total, size) == 1 + Ceiling(total - size, size)
  {
    CeilingAbove(0, total, size);
    if total <= size {
      CeilingAbove(1, total, size);
    } else {
      var q := Ceiling(total - size, size);
      CeilingAbove(0, total - size, size);
      CeilingAbove(q - 1, total - size, size);
      CeilingAbove(q, total - size, size);
      CeilingAbove(q, total, size);
      CeilingAbove(q + 1, total, size);
      NextOffset(q, q * size, size);
    }
  }

  lemma FirstIsOffsetPage(rows: seq<Row>, rest: seq<Row>, n: nat, offset: nat, size: nat, total: nat)
    requires size > 0 && rest == Slice(rows, offset, |rows|) && offset == n * size
    ensures IsOffsetPage(FrontBatch(rest, size), rows, n + 1, size, total)
  {
    NextOffset(n, offset, size);
    OffsetPageIsSlice(rows, n + 1, size, total);
  }

  lemma NextOffset(n: nat, offset: nat, size: nat)
    requires offset == n * size
    ensures offset + size == (n + 1) * size && offset == (n + 1 - 1) * size
  {
  }

  lemma {:induction false} AfterCut(rows: seq<Row>, b: nat)
    requires Sorted(rows) && 0 < b <= |rows|
    ensures After(rows, Some(rows[b - 1].id)) == rows[b..]
  {
    var cut, rest := rows[b - 1].id, rows[1..];
    if b == 1 {
      forall r | r in rest
        ensures r.id > cut
      {
        HeadIsLowest(rows, r);
      }
      AfterAll(rest, Some(cut));
    } else {
      assert rest[b - 2] == rows[b - 1] && rest[b - 1..] == rows[b..];
      assert rows[0].id < cut;
      AfterCut(rest, b - 1);
    }
  }

  // ----- the facade, in plain terms -----

  /** When a paginated read fails: for a page size below 1, a filter on no column, or a cursor that cannot be
      decoded; and at the database for a filter of the wrong type or, without a cursor, a page below 1. */
  lemma ReadFails(table: seq<Row>, filters: FilterDict, page: int, perPage: Option<int>, cursor: Option<string>,
      total: nat)
    ensures
      var answer := GetPaginated(table, filters, page, perPage, cursor, total);
      && (answer.ValueError? <==>
          || (perPage.Some? && perPage.value < 1) || Select(table, filters).ValueError?
          || (cursor.Some? && cursor.value != "" && CursorCodec.DecodeCursor(cursor.value).ValueError?))
      && (answer.DbError? <==>
          !answer.ValueError? && (Select(table, filters).DbError? || (cursor.None? && page < 1)))
  {
    var size := PageSize(perPage);
    if size >= 1 && cursor.None? {
      OffsetSign(page, size);
    }
  }

  lemma OffsetSign(page: int, size: nat)
    requires size > 0
    ensures (page - 1) * size < 0 <==> page < 1
  {
    if page < 1 {
      assert (page - 1) * size <= -1 * size;
    } else {
      assert (page - 1) * size >= 0 * size;
    }
  }

  /** The size of a page: 20 if none is asked for, and never more than 1000. */
  ghost predicate SizeOfPage(perPage: Option<int>, size: int) {
    size == if perPage.None? then 20 else if perPage.value > 1000 then 1000 else perPage.value
  }

  /** `items` are the rows from `offset` on, as many as there are up to `size`. */
  ghost predicate RowsFrom(items: seq<Row>, rows: seq<Row>, offset: int, size: int) {
    && |items| == (if offset >= |rows| then 0 else if offset + size < |rows| then size else |rows| - offset)
    && forall i :: 0 <= i < |items| ==> 0 <= offset + i < |rows| && items[i] == rows[offset + i]
  }

  /** Without a cursor the page of that number is returned, with the total and the number of full or begun
      pages it makes. */
  lemma ReadByNumber(table: seq<Row>, filters: FilterDict, page: int, perPage: Option<int>, total: nat, size: int)
    requires SizeOfPage(perPage, size) && size >= 1 && page >= 1 && Select(table, filters).Ok?
    ensures
      var answer, rows := GetPaginated(table, filters, page, perPage, None, total), Select(table, filters).value;
      && answer.Ok? && RowsFrom(answer.value.items, rows, (page - 1) * size, size)
      && answer.value.page == page && answer.value.perPage == size && answer.value.total == total
      && answer.value.nextCursor.None? && (answer.value.hasMore <==> page * size < |rows|)
      && (if total == 0 then answer.value.pages == 0
          else (answer.value.pages - 1) * size < total <= answer.value.pages * size)
  {
    PageByNumber(Select(table, filters).value, page, size, total);
    assert PageSize(perPage) == size;
  }

  lemma PageByNumber(rows: seq<Row>, page: nat, size: nat, total: nat)
    requires size > 0 && page >= 1
    ensures OffsetPage(rows, page, size, total).Ok?
    ensures
      var p := OffsetPage(rows, page, size, total).value;
      && RowsFrom(p.items, rows, (page - 1) * size, size)
      && p.page == page && p.perPage == size && p.total == total && p.nextCursor.None?
      && (p.hasMore <==> page * size < |rows|)
      && (if total == 0 then p.pages == 0 else (p.pages - 1) * size < total <= p.pages * size)
  {
    OffsetPageIsSlice(rows, page, size, total);
    OffsetSign(page, size);
    SliceRows(rows, (page - 1) * size, size);
    if total > 0 {
      PagesAround(total, size);
    }
  }

  lemma SliceRows(rows: seq<Row>, offset: nat, size: nat)
    ensures RowsFrom(Slice(rows, offset, size), rows, offset, size)
  {
  }

  lemma PagesAround(total: nat, size: nat)
    requires size > 0 && total > 0
    ensures (Ceiling(total, size) - 1) * size < total <= Ceiling(total, size) * size
  {
    var pages := Ceiling(total, size);
    CeilingAbove(pages, total, size);
    CeilingAbove(0, total, size);
    CeilingAbove(pages - 1, total, size);
  }

  /** Where the ids of a list of rows pass a value. */
  ghost predicate Divides(rows: seq<Row>, b: nat, last: Option<int>) {
    && b <= |rows| && (last.None? ==> b == 0)
    && (last.Some? ==> forall i :: 0 <= i < |rows| ==> (i < b <==> rows[i].id <= last.value))
  }

  lemma {:induction false} AfterDivide(rows: seq<Row>, b: nat, last: Option<int>)
    requires Divides(rows, b, last)
    ensures After(rows, last) == rows[b..]
  {
    if rows != [] {
      var rest, c := rows[1..], if b > 0 then b - 1 else 0;
      forall i | last.Some? && 0 <= i < |rest|
        ensures i < c <==> rest[i].id <= last.value
      {
        assert i + 1 < b <==> rows[i + 1].id <= last.value;
      }
      AfterDivide(rest, c, last);
      assert b == 0 ==> Above(last, rows[0].id);
    }
  }

  /** With a cursor, on rows in order of id: the empty one begins at the start, and that of an id behind it.
      There is more when the rows go on, and then the next cursor is that of the last row returned. */
  lemma ReadByCursor(table: seq<Row>, filters: FilterDict, page: int, perPage: Option<int>, cursor: string,
      total: nat, size: int, last: Option<int>, b: nat)
    requires SizeOfPage(perPage, size) && size >= 1 && Select(table, filters).Ok?
    requires cursor == match last case None => "" case Some(id) => CursorCodec.EncodeCursor(id)
    requires Divides(Select(table, filters).value, b, last)
    ensures
      var answer := GetPaginated(table, filters, page, perPage, Some(cursor), total);
      var rows := Select(table, filters).value;
      && answer.Ok? && RowsFrom(answer.value.items, rows, b, size)
      && answer.value.page == 1 && answer.value.perPage == size && answer.value.total == 0 && answer.value.pages == 0
      && (answer.value.hasMore <==> b + size < |rows|)
      && answer.value.nextCursor ==
           if b + size < |rows| then Some(CursorCodec.EncodeCursor(rows[b + size - 1].id)) else None
  {
    CursorDecodes(cursor, last);
    PageBehind(Select(table, filters).value, last, b, size);
    assert PageSize(perPage) == size;
  }

  lemma CursorDecodes(cursor: string, last: Option<int>)
    requires cursor == match last case None => "" case Some(id) => CursorCodec.EncodeCursor(id)
    ensures LastId(Some(cursor)) == Ok(last)
  {
    if last.Some? {
      CursorCodec.CursorRoundTrip(last.value);
      CursorCodec.CursorsAreDistinct(last.value, last.value);
    }
  }

  lemma PageBehind(rows: seq<Row>, last: Option<int>, b: nat, size: nat)
    requires Divides(rows, b, last) && size >= 1
    ensures
      var p := CursorPage(rows, last, size);
      && RowsFrom(p.items, rows, b, size)
      && p == Page(p.items, 1, size, 0, 0, b + size < |rows|,
           if b + size < |rows| then Some(CursorCodec.EncodeCursor(rows[b + size - 1].id)) else None)
  {
    AfterDivide(rows, b, last);
    LookaheadSplits(rows[b..], size);
  }
}
