/**
 * The `status_history` table and the in-memory `active_notifications` flag:
 * the state-change request appends one record and sets the flag, and the
 * break checker reads the latest record whose status is 1.
 */
module StatusLog {
  import opened Wrappers
  import opened Calendar

  const SecondsPerDay := 86400
  const MicrosPerSecond := 1000000

  /** A reading of `datetime.now()`: local date, second of the day, microsecond. */
  datatype Instant = Instant(date: Date, second: int, micro: int)

  predicate ValidInstant(t: Instant) {
    ValidDate(t.date) && 0 <= t.second < SecondsPerDay && 0 <= t.micro < MicrosPerSecond
  }

  /** Microseconds since 0001-01-01 00:00:00 local time. */
  function InstantMicros(t: Instant): int
    requires ValidInstant(t)
  {
    (DayNumber(t.date) * SecondsPerDay + t.second) * MicrosPerSecond + t.micro
  }

  /** One row of `status_history`: date, time of day in seconds, and status (1 = active). */
  datatype Record = Record(date: Date, time: int, active: bool)

  predicate ValidRecord(r: Record) {
    ValidDate(r.date) && 0 <= r.time < SecondsPerDay
  }

  predicate ValidLog(log: seq<Record>) {
    forall i :: 0 <= i < |log| ==> ValidRecord(log[i])
  }

  /** Seconds since 0001-01-01 00:00:00 of the moment the record denotes. */
  function RecordSeconds(r: Record): int
    requires ValidRecord(r)
  {
    DayNumber(r.date) * SecondsPerDay + r.time
  }

  /** The `ORDER BY date, time` key order: a total preorder on records. */
  predicate KeyLe(a: Record, b: Record) {
    DateLt(a.date, b.date) || (a.date == b.date && a.time <= b.time)
  }

  lemma KeyLeTotal(a: Record, b: Record)
    ensures KeyLe(a, b) || KeyLe(b, a)
  {
  }

  lemma KeyLeTransitive(a: Record, b: Record, c: Record)
    requires KeyLe(a, b) && KeyLe(b, c)
    ensures KeyLe(a, c)
  {
  }

  /** For well-formed records the key order is the order of the moments they denote. */
  lemma KeyLeIffEarlier(a: Record, b: Record)
    requires ValidRecord(a) && ValidRecord(b)
    ensures KeyLe(a, b) <==> RecordSeconds(a) <= RecordSeconds(b)
  {
    DayNumberStrictlyMonotone(a.date, b.date);
    DayNumberStrictlyMonotone(b.date, a.date);
    DateLeIffDayNumber(a.date, b.date);
    if DateLt(a.date, b.date) {
      assert DayNumber(a.date) + 1 <= DayNumber(b.date);
      assert RecordSeconds(a) < (DayNumber(a.date) + 1) * SecondsPerDay;
    } else if DateLt(b.date, a.date) {
      assert DayNumber(b.date) + 1 <= DayNumber(a.date);
      assert RecordSeconds(b) < (DayNumber(b.date) + 1) * SecondsPerDay;
    }
  }

  /** The process state this core owns: the persisted log and the notification flag. */
  datatype Monitor = Monitor(log: seq<Record>, activeNotifications: bool)

  /** The flag resets to false when the process starts; the table persists. */
  function Startup(log: seq<Record>): (m: Monitor)
    ensures m.log == log && !m.activeNotifications
  {
    Monitor(log, false)
  }

  /** The JSON body returned by a state change. */
  datatype StatusReply = StatusReply(newStatus: bool, date: Date, time: int)

  /** `status_changed`: store the current date and time (truncated to the second)
      with the requested status, and set the flag to that same status. */
  function StatusChanged(m: Monitor, now: Instant, status: bool): (r: (Monitor, StatusReply))
    requires ValidInstant(now)
    ensures |r.0.log| == |m.log| + 1 && r.0.log[..|m.log|] == m.log
    ensures r.0.log[|m.log|].active == status && r.0.activeNotifications == status
    ensures ValidRecord(r.0.log[|m.log|])
    ensures RecordSeconds(r.0.log[|m.log|]) * MicrosPerSecond <= InstantMicros(now)
              < (RecordSeconds(r.0.log[|m.log|]) + 1) * MicrosPerSecond
    ensures r.1 == StatusReply(status, r.0.log[|m.log|].date, r.0.log[|m.log|].time)
    ensures ValidLog(m.log) ==> ValidLog(r.0.log)
  {
    var rec := Record(now.date, now.second, status);
    (Monitor(m.log + [rec], status), StatusReply(status, now.date, now.second))
  }

  /** `r` is what `SELECT ... WHERE status = 1 ORDER BY date DESC, time DESC LIMIT 1` returns. */
  ghost predicate IsLatestActive(log: seq<Record>, r: Record) {
    && r in log
    && r.active
    && forall i :: 0 <= i < |log| && log[i].active ==> KeyLe(log[i], r)
  }

  predicate NoActive(log: seq<Record>) {
    forall i :: 0 <= i < |log| ==> !log[i].active
  }

  /** The latest status-1 record, scanning the table in insertion order. */
  function LatestActive(log: seq<Record>): (r: Option<Record>)
    ensures r.None? <==> NoActive(log)
    ensures r.Some? ==> IsLatestActive(log, r.value)
  {
    if |log| == 0 then None
    else
      var prefix := log[..|log| - 1];
      var last := log[|log| - 1];
      var prev := LatestActive(prefix);
      assert log == prefix + [last];
      if last.active && (prev.None? || KeyLe(prev.value, last)) then
        assert forall i :: 0 <= i < |prefix| && prefix[i].active ==> KeyLe(prefix[i], last) by {
          forall i | 0 <= i < |prefix| && prefix[i].active
            ensures KeyLe(prefix[i], last)
          {
            KeyLeTransitive(prefix[i], prev.value, last);
          }
        }
        Some(last)
      else if last.active then
        KeyLeTotal(prev.value, last);
        prev
      else
        prev
  }

  /** The latest status-1 record is unique: rows with the same date, time and status are equal. */
  lemma LatestActiveUnique(log: seq<Record>, a: Record, b: Record)
    requires IsLatestActive(log, a) && IsLatestActive(log, b)
    ensures a == b
  {
    var i :| 0 <= i < |log| && log[i] == a;
    var j :| 0 <= j < |log| && log[j] == b;
    assert KeyLe(log[i], b) && KeyLe(log[j], a);
  }

  /** A status-1 record at least as late as every stored record supersedes them all. */
  lemma {:induction false} NewerActiveSupersedes(log: seq<Record>, rec: Record)
    requires rec.active
    requires forall i :: 0 <= i < |log| ==> KeyLe(log[i], rec)
    ensures LatestActive(log + [rec]) == Some(rec)
  {
    var log' := log + [rec];
    var r := LatestActive(log');
    assert log'[|log'| - 1] == rec;
    assert IsLatestActive(log', rec) by {
      forall i | 0 <= i < |log'| && log'[i].active
        ensures KeyLe(log'[i], rec)
      {
        if i < |log| { assert log'[i] == log[i]; }
      }
    }
    LatestActiveUnique(log', r.value, rec);
  }

  /** A status-0 record never changes what the break checker sees. */
  lemma {:induction false} InactiveRecordInvisible(log: seq<Record>, rec: Record)
    requires !rec.active
    ensures LatestActive(log + [rec]) == LatestActive(log)
  {
    var log' := log + [rec];
    assert log'[..|log'| - 1] == log;
  }

  /** A clock that does not run backwards: the instant is not earlier than any stored record. */
  predicate NotBefore(log: seq<Record>, now: Instant) {
    forall i :: 0 <= i < |log| ==> KeyLe(log[i], Record(now.date, now.second, true))
  }

  /** Marking active twice in a row stores two records, and only the second is seen
      by the break checker (given the clock does not run backwards). */
  lemma {:induction false} SecondActivationObserved(m: Monitor, t1: Instant, t2: Instant)
    requires ValidInstant(t1) && ValidInstant(t2)
    requires NotBefore(m.log, t1)
    requires KeyLe(Record(t1.date, t1.second, true), Record(t2.date, t2.second, true))
    ensures var m1 := StatusChanged(m, t1, true).0;
            var m2 := StatusChanged(m1, t2, true).0;
            && |m2.log| == |m.log| + 2
            && m2.activeNotifications
            && LatestActive(m2.log) == Some(Record(t2.date, t2.second, true))
  {
    var m1 := StatusChanged(m, t1, true).0;
    var rec2 := Record(t2.date, t2.second, true);
    forall i | 0 <= i < |m1.log|
      ensures KeyLe(m1.log[i], rec2)
    {
      if i < |m.log| {
        assert m1.log[i] == m.log[i];
        KeyLeTransitive(m.log[i], Record(t1.date, t1.second, true), rec2);
      }
    }
    NewerActiveSupersedes(m1.log, rec2);
  }
}
