/**
 * One tick of the background break checker (`check_work_time`): if notifications
 * are enabled and the latest status-1 record is more than `work_duration`
 * seconds old, a break reminder is pushed to the websocket clients and shown
 * as a desktop alert. The loop and its sleep are not modelled; one tick is.
 */
module BreakCheck {
  import opened Wrappers
  import opened Calendar
  import opened StatusLog

  /** Default configuration (`BREAK_SETTINGS`). */
  const DefaultWorkDuration := 1800
  const DefaultBreakInterval := 180

  const NotificationType := "break_notification"
  const ReminderText := "It's time to take a break!"
  const AlertTitle := "Break reminder"
  const AlertAppName := "Very Good App"
  const AlertTimeout := 10

  /** The JSON message sent to every websocket client. */
  datatype Payload = Payload(kind: string, message: string, workDuration: int, timestamp: Instant)

  /** The desktop notification; its body reads "... You have worked for <minutes> minutes." */
  datatype Alert = Alert(title: string, minutes: int, appName: string, timeout: int)

  datatype BreakEvent = BreakEvent(payload: Payload, alert: Alert)

  /** Python's `int(total_seconds())` on a duration given in microseconds: rounds toward zero. */
  function TruncToSeconds(us: int): (q: int)
    ensures us >= 0 ==> 0 <= q * MicrosPerSecond <= us < (q + 1) * MicrosPerSecond
    ensures us < 0 ==> (q - 1) * MicrosPerSecond < us <= q * MicrosPerSecond <= 0
  {
    if us >= 0 then us / MicrosPerSecond else -((-us) / MicrosPerSecond)
  }

  /** `(datetime.now() - last_active_dt)` in microseconds. It is never negative exactly
      when the record's (date, time) key is not after the clock's current second. */
  function ElapsedMicros(r: Record, now: Instant): (e: int)
    requires ValidRecord(r) && ValidInstant(now)
    ensures e >= 0 <==> KeyLe(r, Record(now.date, now.second, r.active))
  {
    KeyLeIffEarlier(r, Record(now.date, now.second, r.active));
    InstantMicros(now) - RecordSeconds(r) * MicrosPerSecond
  }

  /** The reminder built from an elapsed time: `int(work_duration)` seconds in the
      payload and `work_duration // 60` minutes in the desktop alert. */
  function MakeEvent(elapsed: int, now: Instant): (e: BreakEvent)
    ensures elapsed >= 0 ==> e.payload.workDuration * MicrosPerSecond <= elapsed
                               < (e.payload.workDuration + 1) * MicrosPerSecond
    ensures elapsed >= 0 ==> e.alert.minutes * 60 <= e.payload.workDuration < (e.alert.minutes + 1) * 60
    ensures e.payload.kind == NotificationType && e.payload.message == ReminderText
    ensures e.payload.timestamp == now
    ensures e.alert.title == AlertTitle && e.alert.timeout == AlertTimeout
  {
    var secs := TruncToSeconds(elapsed);
    BreakEvent(Payload(NotificationType, ReminderText, secs, now),
               Alert(AlertTitle, elapsed / (60 * MicrosPerSecond), AlertAppName, AlertTimeout))
  }

  /** The body of one iteration of `check_work_time`. */
  function Tick(flag: bool, log: seq<Record>, now: Instant, workDuration: int): (e: Option<BreakEvent>)
    requires ValidLog(log) && ValidInstant(now)
    ensures !flag ==> e.None?
    ensures NoActive(log) ==> e.None?
    ensures e.Some? ==> e.value.payload.workDuration >= workDuration
    ensures e.Some? ==> e.value.payload.timestamp == now && e.value.payload.message == ReminderText
  {
    if !flag then None
    else
      match LatestActive(log)
      case None => None
      case Some(r) =>
        assert r in log;
        var elapsed := ElapsedMicros(r, now);
        if elapsed > workDuration * MicrosPerSecond then Some(MakeEvent(elapsed, now))
        else None
  }

  /** A tick fires exactly when the flag is set, a status-1 record exists and the
      latest one is strictly more than `workDuration` seconds old; the reminder is
      then the one built from that age, so the payload carries the age truncated to
      whole seconds and the desktop alert its whole minutes. */
  lemma TickFiresIff(flag: bool, log: seq<Record>, now: Instant, workDuration: int)
    requires ValidLog(log) && ValidInstant(now)
    ensures Tick(flag, log, now, workDuration).Some? <==>
              flag && exists r :: IsLatestActive(log, r) && ElapsedMicros(r, now) > workDuration * MicrosPerSecond
    ensures Tick(flag, log, now, workDuration).Some? && workDuration >= 0 ==>
              exists r :: IsLatestActive(log, r) &&
                var secs := Tick(flag, log, now, workDuration).value.payload.workDuration;
                secs * MicrosPerSecond <= ElapsedMicros(r, now) < (secs + 1) * MicrosPerSecond
    ensures Tick(flag, log, now, workDuration).Some? ==>
              exists r :: IsLatestActive(log, r) &&
                Tick(flag, log, now, workDuration).value == MakeEvent(ElapsedMicros(r, now), now)
  {
    var latest := LatestActive(log);
    if latest.Some? {
      forall r | IsLatestActive(log, r)
        ensures r == latest.value
      {
        LatestActiveUnique(log, r, latest.value);
      }
    }
  }

  /** No cooldown: once a tick fires, every later tick with the same flag and log fires too,
      reporting an elapsed time at least as large. */
  lemma NoCooldown(flag: bool, log: seq<Record>, now: Instant, later: Instant, workDuration: int)
    requires ValidLog(log) && ValidInstant(now) && ValidInstant(later)
    requires InstantMicros(now) <= InstantMicros(later)
    requires Tick(flag, log, now, workDuration).Some?
    ensures Tick(flag, log, later, workDuration).Some?
    ensures Tick(flag, log, now, workDuration).value.payload.workDuration
              <= Tick(flag, log, later, workDuration).value.payload.workDuration
  {
    var r := LatestActive(log).value;
    assert r in log;
    var e1 := ElapsedMicros(r, now);
    var e2 := ElapsedMicros(r, later);
    assert e1 <= e2;
  }

  /** Marked active at 12:00:00, checked at 12:30:01 with the default threshold:
      the reminder reports 1801 seconds and 30 minutes. */
  lemma ScenarioThirtyMinutesOneSecond()
    ensures var day := Date(2024, 3, 10);
            var log := [Record(day, 12 * 3600, true)];
            var e := Tick(true, log, Instant(day, 12 * 3600 + 1801, 0), DefaultWorkDuration);
            e.Some? && e.value.payload.workDuration == 1801 && e.value.alert.minutes == 30
  {
    var day := Date(2024, 3, 10);
    var rec := Record(day, 12 * 3600, true);
    var log := [rec];
    assert ValidDate(day);
    assert LatestActive(log) == Some(rec) by {
      LatestActiveUnique(log, LatestActive(log).value, rec);
    }
    assert ElapsedMicros(rec, Instant(day, 12 * 3600 + 1801, 0)) == 1801 * MicrosPerSecond;
  }

  /** Elapsed time of exactly the threshold, up to a fraction of a second, fires and reports the threshold itself. */
  lemma ScenarioFractionAboveThreshold()
    ensures var day := Date(2024, 3, 10);
            var log := [Record(day, 0, true)];
            var e := Tick(true, log, Instant(day, 1800, 500000), DefaultWorkDuration);
            e.Some? && e.value.payload.workDuration == DefaultWorkDuration
  {
    var day := Date(2024, 3, 10);
    var rec := Record(day, 0, true);
    assert ValidDate(day);
    LatestActiveUnique([rec], LatestActive([rec]).value, rec);
    assert ElapsedMicros(rec, Instant(day, 1800, 500000)) == 1800 * MicrosPerSecond + 500000;
  }
}
