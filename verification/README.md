# Break reminder server — a Dafny model

`webserver.py` is a small FastAPI server. An admin client posts "active /
inactive" status changes. These are stored in a SQLite table
`status_history(date, time, status)` and copied into an in-memory flag. A
background task wakes every `break_interval` seconds. When the flag is on and
the latest status-1 row is more than `work_duration` seconds old, it sends a
`break_notification` JSON message to each registered websocket the loop reaches and raises a desktop
alert. Clients log in against a two-entry users table and get a bearer token.
They read the stored rows through a paginated, date-bounded history endpoint.

This project models that core as pure functions over immutable state:

- `Calendar` covers proleptic Gregorian dates (years 1 to 9999, as Python's
  `datetime`). It has day numbers, date order, and subtraction of days that
  fails below year 1, as `OverflowError` does.
- `StatusLog` models the status table as a sequence of rows in insertion order.
  It covers the status-change handler, and the "latest status-1 row by
  (date DESC, time DESC)" lookup used by the break checker.
- `BreakCheck` models one iteration of `check_work_time`. That is the threshold
  comparison, the payload's elapsed seconds truncated by `int()`, and the
  minutes shown by the alert (floored by `// 60`).
- `Fanout` models the websocket registry (accept, disconnect) and the dispatch
  loop as written. It also has the corrected dispatch (see Findings).
- `History` models `GET /statusHistory`: defaults, date validation in the
  code's order, the inclusive `BETWEEN` filter, the count, the ordering,
  `LIMIT/OFFSET` and the pagination block.
- `Auth` models the users table, login, token lookup, logout and the admin
  check.
- `Routes` models the endpoints over the combined state: authentication before
  anything else, and the HTTP status of each rejection.

A clock reading is an `Instant`: a date, a second of the day and a microsecond.
Stored rows keep only the whole second, as `strftime("%H:%M:%S")` does. The age
of a row is therefore measured in microseconds. This makes the `int()`
truncation of `total_seconds()` visible: an age of 1800.5 s passes the
`> 1800` test and reports `work_duration: 1800`.

## Model

| member | source | states |
|---|---|---|
| Calendar.SubDays | webserver.py:239 | `now - timedelta(days=n)` exists exactly when the date's day number is at least n; the result is a valid date exactly n days earlier |
| Calendar.LaterThanEpoch | webserver.py:239 | every valid date other than 0001-01-01 has a positive day number, so one more day can be subtracted |
| Calendar.PrevDay | webserver.py:239 | the day before a valid date other than 0001-01-01 is a valid date whose day number is one less |
| Calendar.DayNumberStrictlyMonotone | webserver.py:247 | date order (year, month, day) agrees with day-number order in both directions |
| Calendar.DateLeIffDayNumber | webserver.py:247-251 | `start <= end` iff day numbers are ordered, and two valid dates with the same day number are equal, so `delta.days` is the day-number difference |
| StatusLog.KeyLeIffEarlier | webserver.py:38-46 | ordering rows by (date, time) is the same as ordering them by the instant they denote |
| StatusLog.Startup | webserver.py:18-22 | the notification flag starts off when the process starts, and the stored table is kept as found |
| StatusLog.StatusChanged | webserver.py:203-227 | exactly one row is appended, earlier rows are unchanged; the row holds the requested status and the clock reading truncated to the second; the flag becomes the requested status; the reply echoes the stored row |
| StatusLog.LatestActive | webserver.py:34-41 | absent iff no row has status 1; otherwise a status-1 row at least as late, by (date, time), as every status-1 row |
| StatusLog.LatestActiveUnique | webserver.py:34-41 | the latest status-1 row is unique: two candidates share date, time and status, so they are the same row value |
| StatusLog.NewerActiveSupersedes | webserver.py:34-41 | a status-1 row at least as late as every stored row becomes the latest status-1 row |
| StatusLog.InactiveRecordInvisible | webserver.py:36 | appending a status-0 row does not change the latest status-1 row |
| StatusLog.SecondActivationObserved | webserver.py:203-219 | two activations in clock order store two rows, leave the flag on, and the break checker sees the second one |
| BreakCheck.TruncToSeconds | webserver.py:52 | `int()` of a microsecond count in seconds rounds toward zero, for both signs |
| BreakCheck.MakeEvent | webserver.py:48-68 | payload constants and timestamp; for a non-negative age the payload is the age truncated to seconds and the alert's minutes are the payload floored by 60 |
| BreakCheck.ElapsedMicros | webserver.py:45-46 | the age of the latest status-1 row is non-negative exactly when the row's (date, time) is not after the clock's current second |
| BreakCheck.Tick | webserver.py:28-54 | no event when the flag is off or no status-1 row exists; an event's payload is never below the threshold |
| BreakCheck.TickFiresIff | webserver.py:30-68 | an event is produced iff the flag is on and the latest status-1 row is strictly older than the threshold; the event is then exactly the reminder built from that row's age, so the payload carries the age truncated to seconds and the desktop alert its `// 60` minutes |
| BreakCheck.NoCooldown | webserver.py:28-72 | once a tick fires, every later tick with the same state fires again with a payload at least as large |
| BreakCheck.ScenarioThirtyMinutesOneSecond | webserver.py:45-65 | active at 12:00:00, checked at 12:30:01: payload 1801 seconds, alert 30 minutes |
| BreakCheck.ScenarioFractionAboveThreshold | webserver.py:46-52 | an age of 1800.5 s fires with payload exactly 1800 |
| Fanout.Accept | webserver.py:190-191 | a new connection is appended at the end; registering a fresh connection keeps the registry free of duplicates |
| Fanout.RemoveFirst | webserver.py:196 | `list.remove` shortens the list by one |
| Fanout.RemoveFirstOfList | webserver.py:196 | `list.remove(c)` on `a + [c] + b` with c not in a yields `a + b` |
| Fanout.RemoveFirstOfDistinct | webserver.py:196 | on a duplicate-free list, `remove(c)` is filtering c out |
| Fanout.Disconnect | webserver.py:192-196 | succeeds iff the connection is still registered (otherwise `ValueError`); on a duplicate-free registry it then removes exactly that connection |
| Fanout.VisitedIff | webserver.py:57-61 | the loop reaches a connection iff it is first or its predecessor was not a reached connection whose send raised |
| Fanout.DispatchAsWritten | webserver.py:57-61 | the connections that receive the event are the reached ones that do not fail; the registry afterwards is the old one minus the reached failing connections |
| Fanout.AsWrittenKeepsHealthy | webserver.py:57-61 | as written, a connection stays registered iff its send succeeded or the loop skipped it, and the healthy connections keep their original order |
| Fanout.SuccessorOfFailureMissed | webserver.py:57-61 | registry [1, 2] with the send to 1 failing: nothing is delivered and 2 stays registered, while the intended result delivers to 2 |
| Fanout.DispatchSnapshot | webserver.py:57-61 | corrected dispatch: every connection whose send succeeds receives the event, in registry order, and exactly the failing ones are removed |
| History.CheckRange | webserver.py:244-252 | accepts iff both dates are valid, ordered (equal allowed) and at most 90 days apart; each rejection names its failed check: format, then order, then a span over 90 days |
| History.ResolveRange | webserver.py:237-252 | supplied dates are kept, the end defaults to today and the start to today minus 90 days; the default start overflows iff today is fewer than 90 days after 0001-01-01, even when a start is supplied |
| History.ResolveRangeIff | webserver.py:241-252 | once the default start exists, any request (zero, one or two dates supplied) passes iff the dates it names, with defaults filled in, form an acceptable range; the range is then exactly those dates, and each error code corresponds exactly to its failed check, including span over 90 days |
| History.DefaultRangePasses | webserver.py:237-252 | with no dates given the range ends today, spans exactly 90 days and passes |
| History.ScenarioStartAfterEnd | webserver.py:247-248 | 2024-02-01 to 2024-01-01 is rejected as start after end |
| History.Matching | webserver.py:261-264 | the rows kept are table rows with start <= date <= end |
| History.MatchingCountsRows | webserver.py:261-265 | the count equals the number of table positions whose date is in the range |
| History.MatchingKeepsRows | webserver.py:267-269 | every in-range row is kept as often as it occurs, every other row is dropped |
| History.InsertDesc | webserver.py:270 | inserting into a newest-first list keeps it newest first and adds exactly one element |
| History.SortDesc | webserver.py:270 | the result is ordered by (date DESC, time DESC) and is a permutation of the input |
| History.Window | webserver.py:271-272 | `LIMIT n OFFSET k` returns min(n, rows left after k) rows, the i-th being row k + i |
| History.ClampPage | webserver.py:254 | page is at least 1 and unchanged when already valid |
| History.ClampPerPage | webserver.py:255 | per_page lies in 1..500 and is unchanged when already valid |
| History.Paginate | webserver.py:282-293 | total_pages is the ceiling of total / per_page (0 for no rows); has_next iff page < total_pages; has_prev iff page > 1 |
| History.HasNextIffMoreRows | webserver.py:282-291 | there is a next page iff some row lies beyond the current page |
| History.PageNonEmptyIff | webserver.py:256-282 | a page starts inside the result iff its number is at most total_pages |
| History.EveryRowOnAPage | webserver.py:256-282 | row k of the ordered result lies on page k / per_page + 1, which is within total_pages |
| History.ServePage | webserver.py:254-298 | exactly min(per_page, rows left after the offset) rows, newest first, all in range and from the table; they are the `(page-1)*per_page`-th window of the sorted in-range rows; total_records counts the in-range rows |
| History.StatusHistory | webserver.py:230-298 | out-of-bound page/per_page is rejected (422) iff out of bounds; an offset `(page-1)*per_page` above 2^63-1, which sqlite3 cannot bind at lines 267-272, fails; an answer has an acceptable range, an offset that fits, and is the requested page of that range |
| History.StatusHistoryResolves | webserver.py:237-272 | with valid parameters the handler succeeds iff the range resolves and the offset fits in a signed 64-bit integer; it fails with the offset error iff the range resolves and the offset does not fit; an answer is for exactly the resolved dates; a range error is passed on unchanged |
| History.ScenarioOffsetOverflow | webserver.py:233-272 | with no dates and one row per page, page 2^63+1 (offset 2^63) fails while page 2^63 (offset 2^63-1) is answered |
| Auth.InitialDb | webserver.py:109-120 | two accounts, admin (role admin) and monitor (role viewer), distinct names, no tokens |
| Auth.FindAccount | webserver.py:174 | the position of an account with that name, absent iff there is none |
| Auth.FindAccountAt | webserver.py:174 | with unique names, looking an account up by its name finds that account |
| Auth.TokenHolder | webserver.py:149-150 | the first account in table order holding the token, absent iff none holds it |
| Auth.CurrentUser | webserver.py:147-155 | succeeds iff some account holds the token, and then reports the first such account's name and role; otherwise 401 |
| Auth.RequireAdmin | webserver.py:157-159 | passes iff the role is admin, otherwise 403 |
| Auth.Login | webserver.py:172-180 | succeeds iff the account exists and the password matches; its token set becomes exactly the new token, other accounts untouched; the reply carries the token and role |
| Auth.Logout | webserver.py:182-186 | succeeds iff the token resolves; the resolved account's tokens become empty, others untouched |
| Auth.TokensKeepNamesUnique | webserver.py:109-120 | changing token sets keeps user names unique |
| Auth.NoSessionAtStartup | webserver.py:109-155 | no token resolves before anyone logs in |
| Auth.LoginTokenIdentifiesUser | webserver.py:172-180 | after login the new token resolves to that user, unless an earlier account holds the same token |
| Auth.LoginRevokesEarlierTokens | webserver.py:176-178 | after login no other token resolves to that user |
| Auth.LogoutEndsSession | webserver.py:182-186 | after logout the token no longer resolves to the user who logged out |
| Auth.SharedTokenResolvesToFirst | webserver.py:149-154 | a token held by several accounts resolves to the first in insertion order |
| Routes.StatusCode | webserver.py:155-159 | 401 exactly for a bad token or credential, 403 exactly for a non-admin, 422 exactly for a query parameter out of bounds, 400 exactly for a rejected date range (lines 245-252), and 500 exactly for the two uncaught overflows: the default start date (line 239) and the page offset bound at lines 267-272 |
| Routes.Boot | webserver.py:108-120 | the server starts with the two built-in accounts and no tokens, the flag off (line 21) and the stored table as found |
| Routes.PostStatusChanged | webserver.py:198-227 | succeeds iff the token resolves to an admin; unknown token gives 401, other roles 403, and a rejection changes nothing |
| Routes.GetStatusHistory | webserver.py:229-236 | an unknown token is rejected (401) before parameters are examined; a request that carries a bearer credential is never refused with 403; an answer is the requested page of an acceptable range |
| Routes.GetStatusHistoryDelegates | webserver.py:229-256 | any authenticated role gets exactly the handler's answer or its history error |
| Routes.PostLogin | webserver.py:172-180 | succeeds iff the credentials match; the users table then has that account's tokens replaced by exactly the new token, and the reply carries token and role; failure is 401 and changes nothing |
| Routes.PostLogout | webserver.py:182-186 | succeeds iff the token resolves; the resolved account's tokens are then emptied and nothing else changes; failure is 401 and changes nothing |
| Routes.CheckTick | webserver.py:28-54 | no event while the flag is off; an event's payload is at least the default 1800 seconds |
| Routes.DeactivationSilences | webserver.py:30-54 | after an accepted change to inactive no tick fires |
| Routes.ActivationThenTick | webserver.py:30-54 | after an accepted activation, made with a clock not behind any stored row, a later tick fires iff more than 1800 s have passed since the stored activation row |
| Routes.ScenarioRoles | webserver.py:157-201 | from startup, the monitor account logs in but gets 403 on a status change with nothing stored; the admin account's change is stored and turns the flag on |

## Left out

- SQLite is left out. The table is a sequence of rows in insertion order, and the `id` column is not modelled. Storage failures are not modelled.
- FastAPI and uvicorn are left out: routing, JSON encoding, the HTML page at `/`, and the HTTPBearer header parsing. A missing or non-Bearer `Authorization` header is rejected by `HTTPBearer()` itself before this code runs (in the FastAPI releases of this period, with 403 "Not authenticated"); `StatusCode` covers only the errors this code raises. A token is a plain string.
- History.SortDesc: rows that share a (date, time) keep their table order. SQLite leaves the order of such ties unspecified, so the model fixes one order where the server promises none.
- The query defaults `page=1` and `per_page=100` are applied by FastAPI before the handler runs. `HistoryQuery` holds the values after those defaults.
- Pydantic and query-string parsing are left out. An absent or empty date string is `None`, as `start_date if start_date else ...` treats them alike.
- `strptime` parsing is not modelled. A supplied date is a `Date` that may be invalid, for example 2023-02-30. Its leniency about unpadded digits, and the raw-string comparison `BETWEEN` makes on such strings, are not modelled.
- The asyncio loop, the lifespan start and cancel, and `asyncio.sleep(break_interval)` are left out. `BreakCheck.Tick` is one iteration, and the cadence of 180 s appears only as a constant.
- Concurrency is left out: interleavings of request handlers, the break checker and websocket callbacks.
- Real websocket I/O is left out. A connection is a number, and whether its send raises is the input set `failing`. Receiving text from clients is not modelled.
- The desktop alert via plyer is not performed. Its title, app name, timeout and whole minutes are modelled, but the formatting of the message text is not. A failing `notification.notify` would end the background coroutine, because nothing catches it; this is not modelled.
- Floating point is left out. `total_seconds()` is exact microsecond arithmetic here, and binary rounding of the float is ignored.
- `datetime.now()` is a parameter. The payload's `timestamp` reuses the reading used for the age, whereas the code reads the clock a second time. `isoformat` text is not modelled.
- `random.randint` for tokens is a parameter of `Auth.Login`.
- Local time zones and daylight-saving jumps are left out, because naive datetimes are compared as written.
- The dispatch loop walks the live list, and there is no `try` around the tick body. `Fanout.DispatchSnapshot` is the corrected dispatch.
- Fanout.Disconnect: a connection already removed by a failed send makes the later `active_connections.remove` raise `ValueError`. This is the `Err(NotRegistered)` case.
- Fanout.DispatchAsWritten and Fanout.DispatchSnapshot require a duplicate-free registry. Each accepted websocket is a distinct object, so the source never holds one twice.
- Auth.LoginTokenIdentifiesUser holds only when no earlier account already holds the drawn token. Two accounts can draw the same six-digit token, and the lookup then reports the first one.
- History.ResolveRangeIff requires today to be at least 90 days after 0001-01-01, because otherwise every request fails with the overflow.

## Findings

| source | as written | input that shows it | evidently intended | confidence | as-written member | corrected member |
|---|---|---|---|---|---|---|
| webserver.py:57-61 | `for connection in active_connections` removes a failed connection from the list it is iterating, so the connection after it shifts into the visited index and is skipped | registry [1, 2] where the send to 1 raises: 1 is removed and 2 never receives the reminder | every connection whose send succeeds receives the reminder, and only the failing ones are removed | not executed | Fanout.DispatchAsWritten, Fanout.SuccessorOfFailureMissed | Fanout.DispatchSnapshot |
