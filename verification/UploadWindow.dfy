/** internal/relaywindow/window.go: weekly upload windows. Times are nanoseconds since the
    Unix epoch, days are counted from it, and a window's timezone is a fixed offset. */
module UploadWindow {
  import opened GoStrings
  import opened GoTime

  const MINUTES_PER_DAY := 24 * 60
  const MAXIMUM_NAME_BYTES := 200
  const MAXIMUM_ID_BYTES := 200
  const MAXIMUM_REASON_BYTES := 500

  /** `zone` is the offset from UTC, or `None` for a timezone that cannot be loaded.
      Weekdays count from Sunday, 0, to Saturday, 6. */
  datatype Window = Window(
    id: string,
    name: string,
    targetType: string,
    targetId: string,
    zone: Option<int>,
    days: seq<int>,
    startMinute: int,
    endMinute: int,
    enabled: bool,
    reason: string)
  {
    predicate Wraps() { startMinute > endMinute }
  }

  predicate DistinctWeekdays(days: seq<int>) {
    && (forall i :: 0 <= i < |days| ==> 0 <= days[i] <= 6)
    && (forall i, j :: 0 <= i < j < |days| ==> days[i] != days[j])
  }

  predicate ValidSettings(w: Window) {
    && !IsBlank(w.name) && |w.name| <= MAXIMUM_NAME_BYTES
    && !IsBlank(w.targetId) && |w.targetId| <= MAXIMUM_ID_BYTES
    && |w.reason| <= MAXIMUM_REASON_BYTES
    && 0 <= w.startMinute < MINUTES_PER_DAY && 0 <= w.endMinute < MINUTES_PER_DAY && w.startMinute != w.endMinute
    && (w.targetType == "endpoint" || w.targetType == "group")
    && w.zone.Some?
    && 1 <= |w.days| <= 7
  }

  predicate ValidWindow(w: Window) { ValidSettings(w) && DistinctWeekdays(w.days) }

  /** `Validate`, with its loop over the weekdays already seen. */
  method Validate(w: Window) returns (ok: bool)
    ensures ok == ValidWindow(w)
  {
    if !ValidSettings(w) {
      return false;
    }
    var seen: set<int> := {};
    var next := 0;
    while next < |w.days|
      invariant 0 <= next <= |w.days|
      invariant DistinctWeekdays(w.days[..next])
      invariant forall day :: day in seen <==> day in w.days[..next]
    {
      var day := w.days[next];
      if day < 0 || day > 6 || day in seen {
        if day in seen {
          var i :| 0 <= i < next && w.days[i] == day;
        }
        return false;
      }
      assert w.days[..next + 1] == w.days[..next] + [day];
      seen := seen + {day};
      next := next + 1;
    }
    assert w.days[..next] == w.days;
    return true;
  }

  // ----- The calendar of a window

  function Offset(w: Window): int { if w.zone.Some? then w.zone.value else 0 }

  function LocalDay(w: Window, now: int): int { (now + Offset(w)) / DAY }

  function TimeOfDay(w: Window, now: int): int { (now + Offset(w)) % DAY }

  function MinuteOfDay(w: Window, now: int): int { TimeOfDay(w, now) / MINUTE }

  /** 1 January 1970 was a Thursday. */
  function Weekday(day: int): int { (day + 4) % 7 }

  function PreviousDay(weekday: int): int { if weekday == 0 then 6 else weekday - 1 }

  /** The half-open interval of the window that starts on a local day. */
  function OpensAt(w: Window, day: int): int { day * DAY + w.startMinute * MINUTE - Offset(w) }

  function ClosesAt(w: Window, day: int): int {
    (if w.Wraps() then day + 1 else day) * DAY + w.endMinute * MINUTE - Offset(w)
  }

  predicate StartsOn(w: Window, day: int) { Weekday(day) in w.days }

  /** The instant lies in the window of some selected day, this week or any other. */
  ghost predicate Contains(w: Window, now: int) {
    exists day :: StartsOn(w, day) && OpensAt(w, day) <= now < ClosesAt(w, day)
  }

  /** `Open` for a valid window. */
  predicate IsOpen(w: Window, now: int) {
    var weekday, minute := Weekday(LocalDay(w, now)), MinuteOfDay(w, now);
    && w.enabled
    && if w.startMinute < w.endMinute then weekday in w.days && w.startMinute <= minute < w.endMinute
       else if minute >= w.startMinute then weekday in w.days
       else minute < w.endMinute && PreviousDay(weekday) in w.days
  }

  lemma Calendar(w: Window, now: int)
    ensures now == LocalDay(w, now) * DAY + TimeOfDay(w, now) - Offset(w)
    ensures 0 <= TimeOfDay(w, now) < DAY
    ensures MinuteOfDay(w, now) * MINUTE <= TimeOfDay(w, now) < (MinuteOfDay(w, now) + 1) * MINUTE
    ensures 0 <= MinuteOfDay(w, now) < MINUTES_PER_DAY
  {
  }

  /** Comparing whole minutes is comparing instants. */
  lemma MinutesDecide(w: Window, now: int, minute: int)
    ensures minute <= MinuteOfDay(w, now) <==> minute * MINUTE <= TimeOfDay(w, now)
  {
    Calendar(w, now);
  }

  lemma YesterdayWeekday(day: int)
    ensures PreviousDay(Weekday(day)) == Weekday(day - 1)
  {
  }

  /** Only the windows of today and yesterday can contain the present. */
  lemma ContainingDay(w: Window, now: int, day: int)
    requires ValidSettings(w) && OpensAt(w, day) <= now < ClosesAt(w, day)
    ensures day == LocalDay(w, now) || (w.Wraps() && day == LocalDay(w, now) - 1)
  {
    Calendar(w, now);
  }

  /** `Open` decides membership in the weekly union of intervals, across midnight too. */
  lemma OpenIsMembership(w: Window, now: int)
    requires ValidSettings(w)
    ensures IsOpen(w, now) <==> w.enabled && Contains(w, now)
  {
    var today := LocalDay(w, now);
    Calendar(w, now);
    MinutesDecide(w, now, w.startMinute);
    MinutesDecide(w, now, w.endMinute);
    YesterdayWeekday(today);
    if IsOpen(w, now) {
      var day := if w.Wraps() && MinuteOfDay(w, now) < w.startMinute then today - 1 else today;
      assert StartsOn(w, day) && OpensAt(w, day) <= now < ClosesAt(w, day);
    }
    if w.enabled && Contains(w, now) {
      var day :| StartsOn(w, day) && OpensAt(w, day) <= now < ClosesAt(w, day);
      ContainingDay(w, now, day);
    }
  }
}
