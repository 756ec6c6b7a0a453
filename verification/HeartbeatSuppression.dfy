/** internal/relaywindow/heartbeat.go: when missing heartbeats raise no alert. */
module HeartbeatSuppression {
  import opened GoStrings
  import opened GoTime
  import opened UploadWindow

  datatype Policy = Policy(allowDelayedHeartbeats: bool, postWindowGraceMinutes: int)

  datatype Reason = DelayedHeartbeatsNotAllowed | UploadWindowOpen | PostWindowGrace | OutsidePostWindowGrace

  datatype Suppression = Suppression(suppressed: bool, reason: Reason, windowIds: seq<string>, lastCloseAt: int)

  // ----- The last close of one window

  /** The window closed at this instant, in this week or any earlier one; the zero time
      stands for "never". */
  ghost predicate ClosedAt(w: Window, instant: int, now: int) {
    ZERO_TIME < instant <= now && exists day :: StartsOn(w, day) && ClosesAt(w, day) == instant
  }

  /** `latest` is the last of all those instants, or the zero time if there is none. */
  ghost predicate IsLastClose(w: Window, now: int, latest: int) {
    && (latest == ZERO_TIME || ClosedAt(w, latest, now))
    && (forall day :: StartsOn(w, day) && ZERO_TIME < ClosesAt(w, day) <= now ==> ClosesAt(w, day) <= latest)
  }

  /** What the loop of `mostRecentClose` holds after its first `n` start dates. */
  function Scan(w: Window, now: int, n: nat): int {
    if n == 0 then ZERO_TIME
    else
      var latest, day := Scan(w, now, n - 1), LocalDay(w, now) - (n - 1);
      if StartsOn(w, day) && latest < ClosesAt(w, day) <= now then ClosesAt(w, day) else latest
  }

  /** It is the last close among those start dates. */
  lemma {:induction false} ScanIsMaximum(w: Window, now: int, n: nat)
    ensures var today, latest := LocalDay(w, now), Scan(w, now, n);
      && latest >= ZERO_TIME
      && (latest == ZERO_TIME || ClosedAt(w, latest, now))
      && (forall day :: today - n < day <= today && StartsOn(w, day) && ClosesAt(w, day) <= now ==>
            ClosesAt(w, day) <= latest)
    decreases n
  {
    hide LocalDay, StartsOn, ClosesAt;
    if n > 0 {
      ScanIsMaximum(w, now, n - 1);
    }
  }

  method MostRecentClose(w: Window, now: int) returns (latest: int)
    ensures latest == Scan(w, now, 8)
  {
    latest := ZERO_TIME;
    var offset := 0;
    while offset <= 7
      invariant 0 <= offset <= 8
      invariant latest == Scan(w, now, offset)
    {
      var startDate := LocalDay(w, now) - offset;
      if Weekday(startDate) in w.days {
        var closedAt := ClosesAt(w, startDate);
        if !(closedAt > now || closedAt <= latest) {
          latest := closedAt;
        }
      }
      offset := offset + 1;
    }
  }

  /** A day of the same weekday within the last week, excluding today. */
  function Recent(today: int, day: int): (r: int)
    ensures today - 7 <= r <= today - 1 && Weekday(r) == Weekday(day)
  {
    today - 1 - (today - 1 - day) % 7
  }

  /** The window that started last night is still open and is the only one of the week:
      the one case in which eight start dates are too few. */
  predicate OnlyLastNight(w: Window, now: int) {
    && w.Wraps() && MinuteOfDay(w, now) < w.endMinute
    && forall weekday :: weekday in w.days ==> weekday == Weekday(LocalDay(w, now) - 1)
  }

  /** An earlier day's window has closed, unless it is last night's and still open. */
  lemma RecentClose(w: Window, now: int, day: int)
    requires ValidSettings(w) && day <= LocalDay(w, now) - 1
    requires !w.Wraps() || MinuteOfDay(w, now) >= w.endMinute || day != LocalDay(w, now) - 1
    ensures ClosesAt(w, day) <= now
  {
    Calendar(w, now);
    MinutesDecide(w, now, w.endMinute);
  }

  /** A close at most as late as some scanned close, whatever week it belongs to. */
  lemma ScanCovers(w: Window, now: int, day: int)
    requires ValidSettings(w) && StartsOn(w, day) && ClosesAt(w, day) <= now
    requires !w.Wraps() || MinuteOfDay(w, now) >= w.endMinute || Weekday(day) != Weekday(LocalDay(w, now) - 1)
    ensures ClosesAt(w, day) <= Scan(w, now, 8)
  {
    hide Scan;
    var today := LocalDay(w, now);
    ScanIsMaximum(w, now, 8);
    Calendar(w, now);
    if day < today - 7 {
      var recent := Recent(today, day);
      assert StartsOn(w, recent);
      RecentClose(w, now, recent);
      assert ClosesAt(w, day) <= ClosesAt(w, recent);
    }
  }

  /** While the window is closed, the scan finds its last close over all past weeks. */
  lemma ScanExactWhenClosed(w: Window, now: int)
    requires ValidSettings(w) && w.enabled && !IsOpen(w, now)
    ensures IsLastClose(w, now, Scan(w, now, 8))
  {
    hide Scan;
    YesterdayWeekday(LocalDay(w, now));
    ScanIsMaximum(w, now, 8);
    forall day | StartsOn(w, day) && ZERO_TIME < ClosesAt(w, day) <= now
      ensures ClosesAt(w, day) <= Scan(w, now, 8)
    {
      ScanCovers(w, now, day);
    }
  }

  lemma SameWeekday(a: int, b: int)
    requires Weekday(a) == Weekday(b)
    ensures a <= b - 7 || a == b || a >= b + 7
  {
  }

  lemma OtherNight(w: Window, now: int, day: int, weekday: int)
    requires ValidWindow(w) && StartsOn(w, day) && ClosesAt(w, day) <= now
    requires w.Wraps() && MinuteOfDay(w, now) < w.endMinute && Weekday(day) == Weekday(LocalDay(w, now) - 1)
    requires weekday in w.days && weekday != Weekday(LocalDay(w, now) - 1)
    ensures ClosesAt(w, day) <= Scan(w, now, 8)
  {
    hide Scan;
    var today := LocalDay(w, now);
    var other := Recent(today, weekday - 4);
    assert StartsOn(w, other);
    RecentClose(w, now, other);
    ScanCovers(w, now, other);
    assert day <= other by {
      Calendar(w, now);
      MinutesDecide(w, now, w.endMinute);
      SameWeekday(day, today - 1);
    }
  }

  /** With another weekday selected, that one closed within the last six days, later than
      last night's weekday did. */
  lemma OtherNightsScan(w: Window, now: int, day: int)
    requires ValidWindow(w) && !OnlyLastNight(w, now) && StartsOn(w, day) && ClosesAt(w, day) <= now
    ensures ClosesAt(w, day) <= Scan(w, now, 8)
  {
    hide Scan;
    var today := LocalDay(w, now);
    if w.Wraps() && MinuteOfDay(w, now) < w.endMinute && Weekday(day) == Weekday(today - 1) {
      var weekday :| weekday in w.days && weekday != Weekday(today - 1);
      OtherNight(w, now, day, weekday);
    } else {
      ScanCovers(w, now, day);
    }
  }

  /** Then every past close is at least eight days old. */
  lemma LastNightDays(w: Window, now: int, day: int)
    requires ValidSettings(w) && OnlyLastNight(w, now) && StartsOn(w, day) && ClosesAt(w, day) <= now
    ensures day <= LocalDay(w, now) - 8
  {
    Calendar(w, now);
    MinutesDecide(w, now, w.endMinute);
    SameWeekday(day, LocalDay(w, now) - 1);
  }

  lemma WeekEarlier(day: int)
    ensures Weekday(day - 7) == Weekday(day)
  {
  }

  lemma {:induction false} ScanFindsNothing(w: Window, now: int, n: nat)
    requires ValidSettings(w) && OnlyLastNight(w, now) && n <= 8
    ensures Scan(w, now, n) == ZERO_TIME
    decreases n
  {
    hide StartsOn, ClosesAt, LocalDay, OnlyLastNight;
    if n > 0 {
      ScanFindsNothing(w, now, n - 1);
      var day := LocalDay(w, now) - (n - 1);
      if StartsOn(w, day) && ClosesAt(w, day) <= now {
        LastNightDays(w, now, day);
      }
    }
  }

  lemma OnlyLastNightScan(w: Window, now: int)
    requires ValidSettings(w) && OnlyLastNight(w, now)
    ensures IsLastClose(w, now, Scan(w, now, 8)) <==> ClosesAt(w, LocalDay(w, now) - 8) <= ZERO_TIME
  {
    hide Scan;
    var today := LocalDay(w, now);
    ScanFindsNothing(w, now, 8);
    assert StartsOn(w, today - 8) by {
      assert w.days[0] in w.days;
      assert w.days[0] == Weekday(today - 1);
      WeekEarlier(today - 1);
      assert Weekday(today - 8) == Weekday(today - 1 - 7);
    }
    RecentClose(w, now, today - 8);
    forall day | StartsOn(w, day) && ClosesAt(w, day) <= now
      ensures ClosesAt(w, day) <= ClosesAt(w, today - 8)
    {
      LastNightDays(w, now, day);
    }
  }

  /** Exactly when the scan is right: it misses the close of eight days ago when last
      night's window is still open and no other weekday is selected. */
  lemma ScanExactIff(w: Window, now: int)
    requires ValidWindow(w)
    ensures IsLastClose(w, now, Scan(w, now, 8)) <==>
      !OnlyLastNight(w, now) || ClosesAt(w, LocalDay(w, now) - 8) <= ZERO_TIME
  {
    hide Scan, OnlyLastNight;
    ScanIsMaximum(w, now, 8);
    if OnlyLastNight(w, now) {
      OnlyLastNightScan(w, now);
    } else {
      forall day | StartsOn(w, day) && ZERO_TIME < ClosesAt(w, day) <= now
        ensures ClosesAt(w, day) <= Scan(w, now, 8)
      {
        OtherNightsScan(w, now, day);
      }
    }
  }

  /** For example: 23:00 to 01:00 on Saturdays only, on a Sunday at midnight. */
  lemma ScanMissesExample()
    ensures var w := Window("w", "nightly", "group", "g", Some(0), [6], 23 * 60, 60, true, "");
      var now := 10 * DAY;
      ValidWindow(w) && IsOpen(w, now) && !IsLastClose(w, now, Scan(w, now, 8))
  {
    hide Scan;
    var w, now := Window("w", "nightly", "group", "g", Some(0), [6], 23 * 60, 60, true, ""), 10 * DAY;
    assert w.name[0] == 'n' && w.targetId[0] == 'g';
    ScanExactIff(w, now);
  }

  // ----- The decision over all windows

  predicate AllValid(windows: seq<Window>) { forall w :: w in windows ==> ValidWindow(w) }

  /** The identifiers of the enabled windows that are open, in list order. */
  function OpenIds(windows: seq<Window>, now: int): (ids: seq<string>)
    ensures ids == [] <==> forall w :: w in windows ==> !IsOpen(w, now)
  {
    if windows == [] then []
    else
      var last := windows[|windows| - 1];
      var ids := OpenIds(windows[..|windows| - 1], now);
      if IsOpen(last, now) then ids + [last.id] else ids
  }

  /** The latest of the scanned closes of the enabled windows. */
  function LatestScan(windows: seq<Window>, now: int): (latest: int)
    ensures latest >= ZERO_TIME
    ensures latest == ZERO_TIME || exists w :: w in windows && w.enabled && Scan(w, now, 8) == latest
    ensures forall w :: w in windows && w.enabled ==> Scan(w, now, 8) <= latest
  {
    if windows == [] then ZERO_TIME
    else
      var last, latest := windows[|windows| - 1], LatestScan(windows[..|windows| - 1], now);
      if last.enabled && Scan(last, now, 8) > latest then Scan(last, now, 8) else latest
  }

  /** When alerts should be silent: an enabled window is open, or one closed within the
      grace period. */
  ghost predicate OpenNow(windows: seq<Window>, now: int) {
    exists w :: w in windows && w.enabled && Contains(w, now)
  }

  ghost predicate WithinGrace(windows: seq<Window>, grace: int, now: int) {
    grace > 0 && exists w, closed :: w in windows && w.enabled && ClosedAt(w, closed, now) && now <= closed + grace
  }

  ghost predicate ShouldSuppress(windows: seq<Window>, policy: Policy, now: int) {
    && policy.allowDelayedHeartbeats
    && AllValid(windows)
    && (OpenNow(windows, now) || WithinGrace(windows, policy.postWindowGraceMinutes * MINUTE, now))
  }

  lemma OpenIdsMeaning(windows: seq<Window>, now: int)
    requires AllValid(windows)
    ensures OpenIds(windows, now) != [] <==> OpenNow(windows, now)
  {
    hide OpenIds, Contains, IsOpen;
    forall w | w in windows
      ensures IsOpen(w, now) <==> w.enabled && Contains(w, now)
    {
      OpenIsMembership(w, now);
    }
  }

  /** With every window closed, the latest scanned close decides the grace period. */
  lemma GraceMeaning(windows: seq<Window>, grace: int, now: int)
    requires AllValid(windows) && OpenIds(windows, now) == []
    ensures var latest := LatestScan(windows, now);
      (latest != ZERO_TIME && grace > 0 && now <= latest + grace) <==> WithinGrace(windows, grace, now)
  {
    hide OpenIds, LatestScan, Scan, IsOpen;
    var latest := LatestScan(windows, now);
    forall w | w in windows && w.enabled
      ensures IsLastClose(w, now, Scan(w, now, 8))
    {
      ScanExactWhenClosed(w, now);
    }
  }

  lemma DisabledIsClosed(w: Window, now: int)
    ensures IsOpen(w, now) ==> w.enabled
  {
  }

  /** The loop over the windows: the open ones, and the latest scanned close. */
  method Survey(windows: seq<Window>, now: int) returns (ok: bool, openIds: seq<string>, latestClose: int)
    ensures ok == AllValid(windows)
    ensures ok ==> openIds == OpenIds(windows, now) && latestClose == LatestScan(windows, now)
  {
    hide IsOpen, Scan, ValidWindow;
    ok, openIds, latestClose := true, [], ZERO_TIME;
    var next := 0;
    while next < |windows|
      invariant 0 <= next <= |windows| && AllValid(windows[..next])
      invariant openIds == OpenIds(windows[..next], now)
      invariant latestClose == LatestScan(windows[..next], now)
    {
      var window := windows[next];
      assert windows[..next + 1] == windows[..next] + [window];
      var valid := Validate(window);
      if !valid {
        return false, [], ZERO_TIME;
      }
      next := next + 1;
      DisabledIsClosed(window, now);
      if window.enabled {
        if IsOpen(window, now) {
          openIds := openIds + [window.id];
        }
        var closedAt := MostRecentClose(window, now);
        if closedAt > latestClose {
          latestClose := closedAt;
        }
      }
    }
    assert windows[..next] == windows;
  }

  /** The last instant at which any of the enabled windows closed, or the zero time. */
  ghost predicate IsLatestClose(windows: seq<Window>, now: int, latest: int) {
    && (latest == ZERO_TIME || exists w :: w in windows && w.enabled && ClosedAt(w, latest, now))
    && (forall w, closed :: w in windows && w.enabled && ClosedAt(w, closed, now) ==> closed <= latest)
  }

  lemma LastCloseMeaning(windows: seq<Window>, now: int)
    requires AllValid(windows) && OpenIds(windows, now) == []
    ensures IsLatestClose(windows, now, LatestScan(windows, now))
  {
    hide OpenIds, LatestScan, Scan, IsOpen;
    forall w | w in windows && w.enabled
      ensures IsLastClose(w, now, Scan(w, now, 8))
    {
      ScanExactWhenClosed(w, now);
    }
  }

  /** Heartbeat alerts are suppressed exactly when they should be. The result also lists
      the open windows in order and, when none is open, the last close of all. */
  method HeartbeatAlertSuppression(windows: seq<Window>, policy: Policy, now: int) returns (r: Option<Suppression>)
    ensures r.None? <==> policy.allowDelayedHeartbeats && !AllValid(windows)
    ensures r.Some? ==> (r.value.suppressed <==> ShouldSuppress(windows, policy, now))
    ensures !policy.allowDelayedHeartbeats ==> r == Some(Suppression(false, DelayedHeartbeatsNotAllowed, [], ZERO_TIME))
    ensures r.Some? && policy.allowDelayedHeartbeats ==>
      && r.value.windowIds == OpenIds(windows, now)
      && r.value.reason == (if OpenIds(windows, now) != [] then UploadWindowOpen
                            else if r.value.suppressed then PostWindowGrace else OutsidePostWindowGrace)
      && (OpenIds(windows, now) == [] ==> IsLatestClose(windows, now, r.value.lastCloseAt))
  {
    hide AllValid, OpenIds, LatestScan, OpenNow, WithinGrace, IsLatestClose;
    if !policy.allowDelayedHeartbeats {
      return Some(Suppression(false, DelayedHeartbeatsNotAllowed, [], ZERO_TIME));
    }
    var ok, openIds, latestClose := Survey(windows, now);
    if !ok {
      return None;
    }
    OpenIdsMeaning(windows, now);
    if openIds != [] {
      return Some(Suppression(true, UploadWindowOpen, openIds, ZERO_TIME));
    }
    var grace := policy.postWindowGraceMinutes * MINUTE;
    GraceMeaning(windows, grace, now);
    LastCloseMeaning(windows, now);
    if latestClose != ZERO_TIME && grace > 0 && now <= latestClose + grace {
      return Some(Suppression(true, PostWindowGrace, openIds, latestClose));
    }
    return Some(Suppression(false, OutsidePostWindowGrace, openIds, latestClose));
  }
}
