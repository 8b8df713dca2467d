/**
 * The bucket `formatRelativeTime` chooses for the "last clean" line of the cleaner popup:
 * just now, minutes ago, hours ago, days ago, or (a week and more) a calendar date.
 */
module RelativeTime {

  const MsPerMinute: int := 1000 * 60
  const MsPerHour: int := 1000 * 60 * 60
  const MsPerDay: int := 1000 * 60 * 60 * 24

  /** The display bucket; the text of each (and the date formatting of the last) is left to the page. */
  datatype Display = JustNow | MinutesAgo(minutes: int) | HoursAgo(hours: int) | DaysAgo(days: int) | CalendarDate(timestamp: int)

  /**
   * The bucket for a clean at `timestamp` seen at `now`. The source floors each quotient;
   * Dafny's `/` with a positive divisor rounds the same way, also for a negative difference
   * (a timestamp in the future), which lands in JustNow.
   */
  function FormatRelativeTime(timestamp: int, now: int): (d: Display)
    ensures d.JustNow? <==> now - timestamp < MsPerMinute
    ensures d.MinutesAgo? <==> MsPerMinute <= now - timestamp < MsPerHour
    ensures d.HoursAgo? <==> MsPerHour <= now - timestamp < MsPerDay
    ensures d.DaysAgo? <==> MsPerDay <= now - timestamp < 7 * MsPerDay
    ensures d.CalendarDate? <==> 7 * MsPerDay <= now - timestamp
    ensures d.MinutesAgo? ==>
      1 <= d.minutes < 60 && d.minutes * MsPerMinute <= now - timestamp < (d.minutes + 1) * MsPerMinute
    ensures d.HoursAgo? ==>
      1 <= d.hours < 24 && d.hours * MsPerHour <= now - timestamp < (d.hours + 1) * MsPerHour
    ensures d.DaysAgo? ==>
      1 <= d.days < 7 && d.days * MsPerDay <= now - timestamp < (d.days + 1) * MsPerDay
    ensures d.CalendarDate? ==> d.timestamp == timestamp
  {
    var diff := now - timestamp;
    var minutes := diff / MsPerMinute;
    var hours := diff / MsPerHour;
    var days := diff / MsPerDay;
    if minutes < 1 then JustNow
    else if minutes < 60 then MinutesAgo(minutes)
    else if hours < 24 then HoursAgo(hours)
    else if days < 7 then DaysAgo(days)
    else CalendarDate(timestamp)
  }

  /** The order of the buckets, from most recent to oldest. */
  function Rank(d: Display): nat {
    match d
    case JustNow => 0
    case MinutesAgo(_) => 1
    case HoursAgo(_) => 2
    case DaysAgo(_) => 3
    case CalendarDate(_) => 4
  }

  /** An older clean never shows as more recent than a newer one. */
  lemma OlderNeverLooksNewer(older: int, newer: int, now: int)
    requires older <= newer
    ensures Rank(FormatRelativeTime(older, now)) >= Rank(FormatRelativeTime(newer, now))
    ensures FormatRelativeTime(older, now).MinutesAgo? && FormatRelativeTime(newer, now).MinutesAgo? ==>
              FormatRelativeTime(older, now).minutes >= FormatRelativeTime(newer, now).minutes
    ensures FormatRelativeTime(older, now).HoursAgo? && FormatRelativeTime(newer, now).HoursAgo? ==>
              FormatRelativeTime(older, now).hours >= FormatRelativeTime(newer, now).hours
    ensures FormatRelativeTime(older, now).DaysAgo? && FormatRelativeTime(newer, now).DaysAgo? ==>
              FormatRelativeTime(older, now).days >= FormatRelativeTime(newer, now).days
  {
  }
}
