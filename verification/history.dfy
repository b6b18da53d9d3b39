/**
 * `GET /statusHistory`: resolve and validate the date range, count the rows
 * whose date lies in it, and return one page of them newest first together
 * with the pagination metadata.
 */
module History {
  import opened Wrappers
  import opened Calendar
  import opened StatusLog

  const MaxSpanDays := 90
  const DefaultLookbackDays := 90
  const MaxPerPage := 500
  /** The largest value sqlite3 binds as an SQLite INTEGER (a signed 64-bit integer). */
  const MaxSqliteInt := 0x7FFF_FFFF_FFFF_FFFF

  /** Why a history request is rejected. */
  datatype HistoryError =
    | ParamOutOfRange      // `Query(ge=1)` / `Query(ge=1, le=500)` fails: HTTP 422
    | DefaultDateOverflow  // `now - timedelta(days=90)` falls before year 1: OverflowError
    | InvalidDateFormat    // `validate_date` fails: HTTP 400
    | StartAfterEnd        // HTTP 400
    | RangeTooLong         // more than 90 days apart: HTTP 400
    | OffsetTooLarge       // `OFFSET ?` bound above 2^63 - 1: uncaught OverflowError

  /** The query parameters; an absent (or empty) date string is `None`. */
  datatype HistoryQuery = HistoryQuery(startDate: Option<Date>, endDate: Option<Date>, page: int, perPage: int)

  datatype Pagination = Pagination(totalRecords: int, totalPages: int, currentPage: int, perPage: int,
                                   hasNext: bool, hasPrev: bool)

  datatype HistoryPage = HistoryPage(data: seq<Record>, pagination: Pagination, startDate: Date, endDate: Date)

  // ---------------------------------------------------------------- date range

  /** The accepted ranges: both dates real calendar dates, in order, at most 90 days apart. */
  predicate AcceptableRange(start: Date, end: Date) {
    && ValidDate(start)
    && ValidDate(end)
    && DateLe(start, end)
    && DayNumber(end) - DayNumber(start) <= MaxSpanDays
  }

  /** The checks of `validate_date` and of the handler, in the source's order. */
  function CheckRange(start: Date, end: Date): (r: Result<(Date, Date), HistoryError>)
    ensures r.Ok? <==> AcceptableRange(start, end)
    ensures r.Ok? ==> r.value == (start, end)
    ensures r == Err(InvalidDateFormat) <==> !ValidDate(start) || !ValidDate(end)
    ensures r == Err(StartAfterEnd) <==> ValidDate(start) && ValidDate(end) && DateLt(end, start)
    ensures r == Err(RangeTooLong) <==>
              ValidDate(start) && ValidDate(end) && DateLe(start, end)
              && DayNumber(end) - DayNumber(start) > MaxSpanDays
  {
    if !ValidDate(start) || !ValidDate(end) then Err(InvalidDateFormat)
    else
      DateLeIffDayNumber(start, end);
      DayNumberStrictlyMonotone(end, start);
      if DateLt(end, start) then Err(StartAfterEnd)
      else if DayNumber(end) - DayNumber(start) > MaxSpanDays then Err(RangeTooLong)
      else Ok((start, end))
  }

  /** The date range a request asks for, after defaults; the default start is
      computed (and can overflow) even when a start date is supplied. */
  function ResolveRange(q: HistoryQuery, today: Date): (r: Result<(Date, Date), HistoryError>)
    requires ValidDate(today)
    ensures r.Ok? ==> AcceptableRange(r.value.0, r.value.1)
    ensures r.Ok? ==> q.startDate.Some? ==> r.value.0 == q.startDate.value
    ensures r.Ok? ==> q.endDate.Some? ==> r.value.1 == q.endDate.value
    ensures r.Ok? ==> q.endDate.None? ==> r.value.1 == today
    ensures r.Ok? ==> q.startDate.None? ==> DayNumber(r.value.0) == DayNumber(today) - DefaultLookbackDays
    ensures r == Err(DefaultDateOverflow) <==> DayNumber(today) < DefaultLookbackDays
  {
    match SubDays(today, DefaultLookbackDays)
    case None => Err(DefaultDateOverflow)
    case Some(defaultStart) =>
      var start := if q.startDate.Some? then q.startDate.value else defaultStart;
      var end := if q.endDate.Some? then q.endDate.value else today;
      CheckRange(start, end)
  }

  /** Once the default start exists, a request is accepted exactly when the dates it
      names (each supplied one, or its default) form an acceptable range, and a
      rejection names the first check that fails. */
  lemma ResolveRangeIff(q: HistoryQuery, today: Date)
    requires ValidDate(today) && DayNumber(today) >= DefaultLookbackDays
    ensures var start := if q.startDate.Some? then q.startDate.value
                         else SubDays(today, DefaultLookbackDays).value;
            var end := if q.endDate.Some? then q.endDate.value else today;
            var r := ResolveRange(q, today);
            && (r.Ok? <==> AcceptableRange(start, end))
            && (r.Ok? ==> r.value == (start, end))
            && (r == Err(InvalidDateFormat) <==> !ValidDate(start) || !ValidDate(end))
            && (r == Err(StartAfterEnd) <==> ValidDate(start) && ValidDate(end) && DateLt(end, start))
            && (r == Err(RangeTooLong) <==>
                  ValidDate(start) && ValidDate(end) && DateLe(start, end)
                  && DayNumber(end) - DayNumber(start) > MaxSpanDays)
  {
  }

  /** Without dates the range is the last 90 days up to today, and it always passes. */
  lemma DefaultRangePasses(page: int, perPage: int, today: Date)
    requires ValidDate(today) && DayNumber(today) >= DefaultLookbackDays
    ensures var r := ResolveRange(HistoryQuery(None, None, page, perPage), today);
            && r.Ok?
            && r.value.1 == today
            && DayNumber(r.value.1) - DayNumber(r.value.0) == MaxSpanDays
  {
    var start := SubDays(today, DefaultLookbackDays).value;
    DayNumberStrictlyMonotone(today, start);
  }

  /** Start after end is rejected before the span is looked at. */
  lemma ScenarioStartAfterEnd(page: int, perPage: int, today: Date)
    requires ValidDate(today) && today.year >= 2
    ensures ResolveRange(HistoryQuery(Some(Date(2024, 2, 1)), Some(Date(2024, 1, 1)), page, perPage), today)
              == Err(StartAfterEnd)
  {
    assert DayNumber(today) >= 365;
  }

  // ---------------------------------------------------------------- counting

  /** `date BETWEEN start AND end` (inclusive on both ends). */
  predicate InRange(r: Record, start: Date, end: Date) {
    DateLe(start, r.date) && DateLe(r.date, end)
  }

  /** The rows in range, in table order. */
  function Matching(log: seq<Record>, start: Date, end: Date): (m: seq<Record>)
    ensures |m| <= |log|
    ensures forall x :: x in m ==> x in log && InRange(x, start, end)
  {
    if |log| == 0 then []
    else
      var prefix := log[..|log| - 1];
      var last := log[|log| - 1];
      Matching(prefix, start, end) + (if InRange(last, start, end) then [last] else [])
  }

  /** The positions of the table whose date is in range. */
  ghost function MatchingPositions(log: seq<Record>, start: Date, end: Date): set<int> {
    set i | 0 <= i < |log| && InRange(log[i], start, end)
  }

  /** Extending the table by one row adds at most that row's (new) position. */
  lemma PositionsGrow(log: seq<Record>, start: Date, end: Date)
    requires |log| > 0
    ensures var n := |log| - 1;
            && n !in MatchingPositions(log[..n], start, end)
            && MatchingPositions(log, start, end)
                 == MatchingPositions(log[..n], start, end) + (if InRange(log[n], start, end) then {n} else {})
  {
    var n := |log| - 1;
    assert forall i :: 0 <= i < n ==> log[..n][i] == log[i];
  }

  /** `SELECT COUNT(*) ... WHERE date BETWEEN ? AND ?` counts exactly the rows in range. */
  lemma {:induction false} MatchingCountsRows(log: seq<Record>, start: Date, end: Date)
    ensures |Matching(log, start, end)| == |MatchingPositions(log, start, end)|
  {
    if |log| > 0 {
      MatchingCountsRows(log[..|log| - 1], start, end);
      PositionsGrow(log, start, end);
    }
  }

  /** Every row in range is counted as often as it occurs. */
  lemma {:induction false} MatchingKeepsRows(log: seq<Record>, start: Date, end: Date, x: Record)
    ensures multiset(Matching(log, start, end))[x] == if InRange(x, start, end) then multiset(log)[x] else 0
  {
    if |log| > 0 {
      var n := |log| - 1;
      MatchingKeepsRows(log[..n], start, end, x);
      assert log == log[..n] + [log[n]];
    }
  }

  // ---------------------------------------------------------------- ordering

  /** `ORDER BY date DESC, time DESC`. */
  ghost predicate SortedDesc(s: seq<Record>) {
    forall i, j :: 0 <= i < j < |s| ==> KeyLe(s[j], s[i])
  }

  /** A row at least as late as the head of a newest-first list may go in front. */
  lemma PrependLatest(x: Record, s: seq<Record>)
    requires SortedDesc(s) && |s| > 0 && KeyLe(s[0], x)
    ensures SortedDesc([x] + s)
  {
    forall j | 0 <= j < |s| ensures KeyLe(s[j], x) {
      if j > 0 { KeyLeTransitive(s[j], s[0], x); }
    }
    var t := [x] + s;
    forall i, j | 0 <= i < j < |t| ensures KeyLe(t[j], t[i]) {
      assert t[j] == s[j - 1];
    }
  }

  /** Every row of `rest` (the tail of a newest-first list plus `x`) is no later than `head`. */
  lemma BelowHead(head: Record, x: Record, tail: seq<Record>, rest: seq<Record>)
    requires !KeyLe(head, x)
    requires forall j :: 0 <= j < |tail| ==> KeyLe(tail[j], head)
    requires multiset(rest) == multiset(tail) + multiset{x}
    ensures forall k :: 0 <= k < |rest| ==> KeyLe(rest[k], head)
  {
    forall k | 0 <= k < |rest| ensures KeyLe(rest[k], head) {
      assert rest[k] in multiset(rest);
      if rest[k] == x {
        KeyLeTotal(head, x);
      } else {
        assert rest[k] in multiset(tail);
        var m :| 0 <= m < |tail| && tail[m] == rest[k];
      }
    }
  }

  lemma PrependHead(head: Record, rest: seq<Record>)
    requires SortedDesc(rest)
    requires forall k :: 0 <= k < |rest| ==> KeyLe(rest[k], head)
    ensures SortedDesc([head] + rest)
  {
    var t := [head] + rest;
    forall i, j | 0 <= i < j < |t| ensures KeyLe(t[j], t[i]) {
      assert t[j] == rest[j - 1];
      if i > 0 { assert t[i] == rest[i - 1]; }
    }
  }

  function InsertDesc(x: Record, s: seq<Record>): (r: seq<Record>)
    requires SortedDesc(s)
    ensures SortedDesc(r)
    ensures multiset(r) == multiset(s) + multiset{x}
  {
    if |s| == 0 then [x]
    else if KeyLe(s[0], x) then
      PrependLatest(x, s);
      [x] + s
    else
      var rest := InsertDesc(x, s[1..]);
      assert s == [s[0]] + s[1..];
      BelowHead(s[0], x, s[1..], rest);
      PrependHead(s[0], rest);
      [s[0]] + rest
  }

  /** The rows newest first. Rows that share a (date, time) stay in table order, one
      fixed choice among the orders SQLite may return them in. */
  function SortDesc(s: seq<Record>): (r: seq<Record>)
    ensures SortedDesc(r)
    ensures multiset(r) == multiset(s)
    ensures |r| == |s|
  {
    if |s| == 0 then []
    else
      assert s == [s[0]] + s[1..];
      InsertDesc(s[0], SortDesc(s[1..]))
  }

  // ---------------------------------------------------------------- paging

  /** `LIMIT per_page OFFSET offset` over the sorted rows. */
  function Window(rows: seq<Record>, offset: int, limit: int): (page: seq<Record>)
    requires offset >= 0 && limit >= 0
    ensures |page| <= limit
    ensures |page| == if offset >= |rows| then 0 else if offset + limit <= |rows| then limit else |rows| - offset
    ensures forall k :: 0 <= k < |page| ==> page[k] == rows[offset + k]
  {
    if offset >= |rows| then []
    else if offset + limit <= |rows| then rows[offset..offset + limit]
    else rows[offset..]
  }

  lemma WindowSorted(rows: seq<Record>, offset: int, limit: int)
    requires offset >= 0 && limit >= 0 && SortedDesc(rows)
    ensures SortedDesc(Window(rows, offset, limit))
  {
    var page := Window(rows, offset, limit);
    forall i, j | 0 <= i < j < |page| ensures KeyLe(page[j], page[i]) {
      assert page[i] == rows[offset + i] && page[j] == rows[offset + j];
    }
  }

  lemma WindowMembers(rows: seq<Record>, offset: int, limit: int)
    requires offset >= 0 && limit >= 0
    ensures forall x :: x in Window(rows, offset, limit) ==> x in rows
  {
    var page := Window(rows, offset, limit);
    forall x | x in page ensures x in rows {
      var k :| 0 <= k < |page| && page[k] == x;
      assert rows[offset + k] == x;
    }
  }

  lemma SortedMembers(s: seq<Record>)
    ensures forall x :: x in SortDesc(s) ==> x in s
  {
    forall x | x in SortDesc(s) ensures x in s {
      assert x in multiset(SortDesc(s));
    }
  }

  function ClampPage(page: int): (p: int)
    ensures p >= 1 && (page >= 1 ==> p == page)
  {
    if page > 1 then page else 1
  }

  function ClampPerPage(perPage: int): (p: int)
    ensures 1 <= p <= MaxPerPage
    ensures 1 <= perPage <= MaxPerPage ==> p == perPage
  {
    if perPage < 1 then 1 else if perPage > MaxPerPage then MaxPerPage else perPage
  }

  /** The pagination block of the response. */
  function Paginate(total: nat, page: int, perPage: int): (p: Pagination)
    requires page >= 1 && perPage >= 1
    ensures p.totalRecords == total && p.currentPage == page && p.perPage == perPage
    ensures p.totalPages >= 0
    ensures p.totalPages * perPage >= total && (p.totalPages - 1) * perPage < total
    ensures p.hasNext <==> page < p.totalPages
    ensures p.hasPrev <==> page > 1
  {
    var totalPages := (total + perPage - 1) / perPage;
    Pagination(total, totalPages, page, perPage, page < totalPages, page > 1)
  }

  lemma MulMono(a: int, b: int, k: int)
    requires a <= b && k >= 0
    ensures a * k <= b * k
  {
  }

  /** There is a next page exactly when some row lies beyond this one. */
  lemma HasNextIffMoreRows(total: nat, page: int, perPage: int)
    requires page >= 1 && perPage >= 1
    ensures Paginate(total, page, perPage).hasNext <==> page * perPage < total
  {
    var tp := Paginate(total, page, perPage).totalPages;
    if page < tp {
      MulMono(page, tp - 1, perPage);
    } else {
      MulMono(tp, page, perPage);
    }
  }

  /** A page holds rows exactly when its number is at most `total_pages`. */
  lemma PageNonEmptyIff(total: nat, page: int, perPage: int)
    requires page >= 1 && perPage >= 1
    ensures (page - 1) * perPage < total <==> page <= Paginate(total, page, perPage).totalPages
  {
    var tp := Paginate(total, page, perPage).totalPages;
    if page <= tp {
      MulMono(page - 1, tp - 1, perPage);
    } else {
      MulMono(tp, page - 1, perPage);
    }
  }

  /** Row `k` of the ordered result is on page `k / per_page + 1`, which exists. */
  lemma EveryRowOnAPage(total: nat, perPage: int, k: int)
    requires perPage >= 1 && 0 <= k < total
    ensures var page := k / perPage + 1;
            && (page - 1) * perPage <= k < page * perPage
            && page <= Paginate(total, page, perPage).totalPages
  {
    var page := k / perPage + 1;
    assert (page - 1) * perPage == k - k % perPage;
    PageNonEmptyIff(total, page, perPage);
  }

  /** One page of the in-range rows, newest first, and its pagination block. */
  function ServePage(log: seq<Record>, start: Date, end: Date, page: int, perPage: int): (r: HistoryPage)
    requires page >= 1 && perPage >= 1
    ensures r.startDate == start && r.endDate == end
    ensures r.pagination == Paginate(|MatchingPositions(log, start, end)|, page, perPage)
    ensures |r.data| <= perPage
    ensures var total, offset := |MatchingPositions(log, start, end)|, (page - 1) * perPage;
            |r.data| == if offset >= total then 0 else if offset + perPage <= total then perPage else total - offset
    ensures SortedDesc(r.data)
    ensures forall x :: x in r.data ==> x in log && InRange(x, start, end)
    ensures var rows, offset := SortDesc(Matching(log, start, end)), (page - 1) * perPage;
            && offset >= 0
            && forall k :: 0 <= k < |r.data| ==> offset + k < |rows| && r.data[k] == rows[offset + k]
  {
    var offset := (page - 1) * perPage;
    var matching := Matching(log, start, end);
    var rows := SortDesc(matching);
    var data := Window(rows, offset, perPage);
    MatchingCountsRows(log, start, end);
    WindowSorted(rows, offset, perPage);
    WindowMembers(rows, offset, perPage);
    SortedMembers(matching);
    HistoryPage(data, Paginate(|matching|, page, perPage), start, end)
  }

  /** The handler body, after authentication. `page` has no upper bound, so the offset
      can exceed what the page query can bind; the count query before it has no effect
      on the answer. */
  function StatusHistory(log: seq<Record>, today: Date, q: HistoryQuery): (r: Result<HistoryPage, HistoryError>)
    requires ValidDate(today)
    ensures (q.page < 1 || q.perPage < 1 || q.perPage > MaxPerPage) <==> r == Err(ParamOutOfRange)
    ensures r == Err(OffsetTooLarge) ==> (q.page - 1) * q.perPage > MaxSqliteInt
    ensures r.Ok? ==> AcceptableRange(r.value.startDate, r.value.endDate)
    ensures r.Ok? ==> 1 <= q.page && 1 <= q.perPage && (q.page - 1) * q.perPage <= MaxSqliteInt
                      && r.value == ServePage(log, r.value.startDate, r.value.endDate, q.page, q.perPage)
  {
    if q.page < 1 || q.perPage < 1 || q.perPage > MaxPerPage then Err(ParamOutOfRange)
    else
      match ResolveRange(q, today)
      case Err(e) => Err(e)
      case Ok((start, end)) =>
        if (q.page - 1) * q.perPage > MaxSqliteInt then Err(OffsetTooLarge)
        else Ok(ServePage(log, start, end, ClampPage(q.page), ClampPerPage(q.perPage)))
  }

  /** Past the parameter bounds, the handler answers for exactly the resolved range
      unless the offset is too wide to bind, and a range rejection is passed on unchanged. */
  lemma StatusHistoryResolves(log: seq<Record>, today: Date, q: HistoryQuery)
    requires ValidDate(today)
    requires 1 <= q.page && 1 <= q.perPage <= MaxPerPage
    ensures var r := StatusHistory(log, today, q);
            var range := ResolveRange(q, today);
            var fits := (q.page - 1) * q.perPage <= MaxSqliteInt;
            && (r.Ok? <==> range.Ok? && fits)
            && (r == Err(OffsetTooLarge) <==> range.Ok? && !fits)
            && (r.Ok? ==> (r.value.startDate, r.value.endDate) == range.value)
            && (range.Err? ==> r == Err(range.error))
  {
    var range := ResolveRange(q, today);
    if range.Err? {
      assert StatusHistory(log, today, q) == Err(range.error);
    } else if (q.page - 1) * q.perPage > MaxSqliteInt {
      assert StatusHistory(log, today, q) == Err(OffsetTooLarge);
    } else {
      var start, end := range.value.0, range.value.1;
      assert StatusHistory(log, today, q)
             == Ok(ServePage(log, start, end, ClampPage(q.page), ClampPerPage(q.perPage)));
    }
  }

  /** With no dates and one row per page, page 2^63 + 1 puts the offset at 2^63 and
      fails, while page 2^63 puts it at 2^63 - 1 and is answered. */
  lemma ScenarioOffsetOverflow(log: seq<Record>, today: Date)
    requires ValidDate(today) && DayNumber(today) >= DefaultLookbackDays
    ensures StatusHistory(log, today, HistoryQuery(None, None, 0x8000_0000_0000_0001, 1)) == Err(OffsetTooLarge)
    ensures StatusHistory(log, today, HistoryQuery(None, None, 0x8000_0000_0000_0000, 1)).Ok?
  {
    DefaultRangePasses(0x8000_0000_0000_0001, 1, today);
    DefaultRangePasses(0x8000_0000_0000_0000, 1, today);
  }
}
