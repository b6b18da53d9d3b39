/**
 * The HTTP endpoints over the server's in-memory state: the users table, the
 * status log and the notification flag. Authentication runs before anything
 * else; a rejected request leaves the state as it was.
 */
module Routes {
  import opened Wrappers
  import opened Calendar
  import opened StatusLog
  import opened BreakCheck
  import opened History
  import opened Auth

  datatype Server = Server(users: seq<Account>, monitor: Monitor)

  datatype ApiError = AuthFailed(auth: AuthError) | HistoryFailed(history: HistoryError)

  /** The HTTP status of an error response: 401 for a bad credential or token, 403 for
      a non-admin, 422 for a query parameter out of bounds, 400 for a rejected date
      range, and 500 only for the two uncaught overflows: the default start date and
      the page offset. */
  function StatusCode(e: ApiError): (code: int)
    ensures code == 401 <==> e.AuthFailed? && e.auth != NotAdmin
    ensures code == 403 <==> e == AuthFailed(NotAdmin)
    ensures code == 422 <==> e == HistoryFailed(ParamOutOfRange)
    ensures code == 400 <==> e.HistoryFailed? && e.history in {InvalidDateFormat, StartAfterEnd, RangeTooLong}
    ensures code == 500 <==> e == HistoryFailed(DefaultDateOverflow) || e == HistoryFailed(OffsetTooLarge)
    ensures 400 <= code < 500 <==> e != HistoryFailed(DefaultDateOverflow) && e != HistoryFailed(OffsetTooLarge)
  {
    match e
    case AuthFailed(NotAdmin) => 403
    case AuthFailed(_) => 401
    case HistoryFailed(ParamOutOfRange) => 422
    case HistoryFailed(DefaultDateOverflow) => 500
    case HistoryFailed(OffsetTooLarge) => 500
    case HistoryFailed(_) => 400
  }

  /** The state right after startup: built-in accounts, flag off, table as found on disk. */
  function Boot(log: seq<Record>): (s: Server)
    ensures s.users == InitialDb() && s.monitor.log == log && !s.monitor.activeNotifications
  {
    Server(InitialDb(), Startup(log))
  }

  /** `POST /statusChanged`: bearer token, then the admin check, then the change. */
  function PostStatusChanged(s: Server, token: string, now: Instant, status: bool)
    : (r: (Server, Result<StatusReply, ApiError>))
    requires ValidInstant(now)
    ensures r.1.Ok? <==> CurrentUser(s.users, token).Ok? && CurrentUser(s.users, token).value.role == AdminRole
    ensures r.1.Err? ==> r.0 == s
    ensures r.1.Err? ==> (StatusCode(r.1.error) == 401 <==> CurrentUser(s.users, token).Err?)
    ensures r.1.Err? ==> StatusCode(r.1.error) == 401 || StatusCode(r.1.error) == 403
    ensures r.1.Ok? ==> r.0.users == s.users && (r.0.monitor, r.1.value) == StatusChanged(s.monitor, now, status)
  {
    match CurrentUser(s.users, token)
    case Err(e) => (s, Err(AuthFailed(e)))
    case Ok(user) =>
      match RequireAdmin(user)
      case Err(e) => (s, Err(AuthFailed(e)))
      case Ok(_) =>
        var (m, reply) := StatusChanged(s.monitor, now, status);
        (Server(s.users, m), Ok(reply))
  }

  /** `GET /statusHistory`: any authenticated role may read; an unknown token is
      rejected before the query parameters are looked at. */
  function GetStatusHistory(s: Server, token: string, today: Date, q: HistoryQuery)
    : (r: Result<HistoryPage, ApiError>)
    requires ValidDate(today)
    ensures CurrentUser(s.users, token).Err? ==> r == Err(AuthFailed(InvalidToken))
    ensures r.Err? ==> StatusCode(r.error) != 403
    ensures r.Ok? ==> 1 <= q.page && 1 <= q.perPage
                      && AcceptableRange(r.value.startDate, r.value.endDate)
                      && r.value == ServePage(s.monitor.log, r.value.startDate, r.value.endDate, q.page, q.perPage)
  {
    match CurrentUser(s.users, token)
    case Err(e) => Err(AuthFailed(e))
    case Ok(_) =>
      match StatusHistory(s.monitor.log, today, q)
      case Err(e) => Err(HistoryFailed(e))
      case Ok(page) => Ok(page)
  }

  /** For an authenticated caller the endpoint answers exactly as the handler body,
      with a history error passed on under its own status code. */
  lemma GetStatusHistoryDelegates(s: Server, token: string, today: Date, q: HistoryQuery)
    requires ValidDate(today) && CurrentUser(s.users, token).Ok?
    ensures var r := GetStatusHistory(s, token, today, q);
            var h := StatusHistory(s.monitor.log, today, q);
            && (r.Ok? <==> h.Ok?)
            && (r.Ok? ==> r.value == h.value)
            && (r.Err? ==> r.error == HistoryFailed(h.error))
  {
  }

  /** `POST /login` on the server state. */
  function PostLogin(s: Server, name: string, password: string, token: string)
    : (r: (Server, Result<LoginReply, ApiError>))
    ensures r.1.Err? ==> r.0 == s && StatusCode(r.1.error) == 401
    ensures r.1.Ok? ==> r.0.monitor == s.monitor && r.1.value.token == token
    ensures r.1.Ok? <==> Login(s.users, name, password, token).Ok?
    ensures r.1.Ok? ==> var i := FindAccount(s.users, name).value;
                        && r.0.users == WithTokens(s.users, i, {token})
                        && r.1.value == LoginReply(token, s.users[i].role)
  {
    match Login(s.users, name, password, token)
    case Err(e) => (s, Err(AuthFailed(e)))
    case Ok((users, reply)) => (Server(users, s.monitor), Ok(reply))
  }

  /** `POST /logout` on the server state. */
  function PostLogout(s: Server, token: string): (r: (Server, Result<(), ApiError>))
    ensures r.1.Err? ==> r.0 == s && StatusCode(r.1.error) == 401
    ensures r.1.Ok? <==> CurrentUser(s.users, token).Ok?
    ensures r.1.Ok? ==> r.0.monitor == s.monitor
    ensures r.1.Ok? ==> r.0.users == WithTokens(s.users, TokenHolder(s.users, token).value, {})
  {
    match Logout(s.users, token)
    case Err(e) => (s, Err(AuthFailed(e)))
    case Ok(users) => (Server(users, s.monitor), Ok(()))
  }

  /** One iteration of the background break checker on the server state, default threshold. */
  function CheckTick(s: Server, now: Instant): (e: Option<BreakEvent>)
    requires ValidLog(s.monitor.log) && ValidInstant(now)
    ensures !s.monitor.activeNotifications ==> e.None?
    ensures e.Some? ==> e.value.payload.workDuration >= DefaultWorkDuration
  {
    Tick(s.monitor.activeNotifications, s.monitor.log, now, DefaultWorkDuration)
  }

  /** Marking inactive silences the break checker until the next activation. */
  lemma DeactivationSilences(s: Server, token: string, now: Instant, later: Instant)
    requires ValidInstant(now) && ValidInstant(later) && ValidLog(s.monitor.log)
    requires PostStatusChanged(s, token, now, false).1.Ok?
    ensures var s' := PostStatusChanged(s, token, now, false).0;
            ValidLog(s'.monitor.log) && CheckTick(s', later).None?
  {
  }

  /** After an activation by the latest clock reading, a check more than the default
      threshold later fires, and a check within it does not. */
  lemma ActivationThenTick(s: Server, token: string, now: Instant, later: Instant)
    requires ValidInstant(now) && ValidInstant(later) && ValidLog(s.monitor.log)
    requires NotBefore(s.monitor.log, now)
    requires PostStatusChanged(s, token, now, true).1.Ok?
    ensures var s' := PostStatusChanged(s, token, now, true).0;
            var rec := Record(now.date, now.second, true);
            && ValidLog(s'.monitor.log)
            && (CheckTick(s', later).Some? <==> ElapsedMicros(rec, later) > DefaultWorkDuration * MicrosPerSecond)
  {
    var s' := PostStatusChanged(s, token, now, true).0;
    var rec := Record(now.date, now.second, true);
    assert s'.monitor.log == s.monitor.log + [rec];
    NewerActiveSupersedes(s.monitor.log, rec);
  }

  /** From startup: the viewer account can log in but not change the status (403,
      nothing stored), while the admin account can. */
  lemma ScenarioRoles(log: seq<Record>, now: Instant, t1: string, t2: string)
    requires ValidInstant(now)
    ensures var (s1, r1) := PostLogin(Boot(log), "monitor", "readonly456", t1);
            && r1 == Ok(LoginReply(t1, ViewerRole))
            && var (s2, r2) := PostStatusChanged(s1, t1, now, true);
               && r2.Err? && StatusCode(r2.error) == 403 && s2 == s1
    ensures var (s1, r1) := PostLogin(Boot(log), "admin", "password123", t2);
            && r1 == Ok(LoginReply(t2, AdminRole))
            && var (s2, r2) := PostStatusChanged(s1, t2, now, true);
               && r2.Ok? && s2.monitor.activeNotifications && |s2.monitor.log| == |log| + 1
  {
    var db := InitialDb();
    assert FindAccount(db, "monitor") == Some(1) by { FindAccountAt(db, 1); }
    assert FindAccount(db, "admin") == Some(0) by { FindAccountAt(db, 0); }
    var (s1, _) := PostLogin(Boot(log), "monitor", "readonly456", t1);
    LoginTokenIdentifiesUser(db, "monitor", "readonly456", t1);
    var (u1, _) := PostLogin(Boot(log), "admin", "password123", t2);
    LoginTokenIdentifiesUser(db, "admin", "password123", t2);
  }
}
