/** internal/relaywindow/gate.go: whether a relay may connect to the server now. */
module ConnectionGate {
  import opened GoTime
  import opened UploadWindow
  import opened HeartbeatSuppression

  const MAXIMUM_CLOCK_DRIFT := 5 * MINUTE

  datatype GateReason =
    | InvalidEvaluationTime | ClockDriftDetected | InvalidWindowPolicy
    | ApprovedWindowOpen | OutsideApprovedWindow | NoEnabledWindow

  datatype Decision = Decision(
    allowed: bool,
    reason: GateReason,
    windowIds: seq<string>,
    evaluatedAt: int,
    clockDriftSeconds: int)

  function Absolute(duration: int): int { if duration < 0 then -duration else duration }

  predicate DistinctIds(windows: seq<Window>) {
    && (forall i :: 0 <= i < |windows| ==> windows[i].id != "")
    && (forall i, j :: 0 <= i < j < |windows| ==> windows[i].id != windows[j].id)
  }

  predicate ClocksAgree(agentNow: int, trustedNow: int) {
    agentNow != ZERO_TIME && trustedNow != ZERO_TIME && Absolute(agentNow - trustedNow) <= MAXIMUM_CLOCK_DRIFT
  }

  predicate SomeEnabled(windows: seq<Window>) { exists w :: w in windows && w.enabled }

  function IdSet(windows: seq<Window>): set<string> { set w | w in windows :: w.id }

  lemma ExtendWindows(windows: seq<Window>, window: Window, now: int)
    ensures var more := windows + [window];
      && (AllValid(more) <==> AllValid(windows) && ValidWindow(window))
      && (DistinctIds(more) <==> DistinctIds(windows) && window.id != "" && window.id !in IdSet(windows))
      && IdSet(more) == IdSet(windows) + {window.id}
      && (SomeEnabled(more) <==> SomeEnabled(windows) || window.enabled)
      && OpenIds(more, now) == OpenIds(windows, now) + if IsOpen(window, now) then [window.id] else []
  {
    hide IsOpen, ValidWindow;
    var more := windows + [window];
    assert more[..|windows|] == windows && more[|windows|] == window;
    assert forall i :: 0 <= i < |windows| ==> more[i] == windows[i];
    assert forall i :: 0 <= i < |windows| ==> windows[i] in windows;
    assert window in more;
  }

  /** A policy that is not sound up to some window is not sound. */
  lemma UnsoundBeginning(windows: seq<Window>, n: nat)
    requires n <= |windows| && AllValid(windows) && DistinctIds(windows)
    ensures AllValid(windows[..n]) && DistinctIds(windows[..n])
  {
    hide ValidWindow;
  }

  lemma NoWindows(now: int)
    ensures AllValid([]) && DistinctIds([]) && IdSet([]) == {} && !SomeEnabled([]) && OpenIds([], now) == []
  {
  }

  /** The loop over the windows: the policy is sound, some window is enabled, and these are open. */
  method Admit(windows: seq<Window>, now: int) returns (ok: bool, enabled: bool, openIds: seq<string>)
    ensures ok == (AllValid(windows) && DistinctIds(windows))
    ensures ok ==> enabled == SomeEnabled(windows) && openIds == OpenIds(windows, now)
  {
    hide IsOpen, ValidWindow, AllValid, DistinctIds, SomeEnabled, OpenIds, IdSet;
    ok, enabled, openIds := false, false, [];
    NoWindows(now);
    var seen, next := {}, 0;
    assert windows[..0] == [];
    while next < |windows|
      invariant 0 <= next <= |windows|
      invariant AllValid(windows[..next]) && DistinctIds(windows[..next])
      invariant seen == IdSet(windows[..next])
      invariant enabled == SomeEnabled(windows[..next])
      invariant openIds == OpenIds(windows[..next], now)
    {
      var window := windows[next];
      assert windows[..next + 1] == windows[..next] + [window];
      ExtendWindows(windows[..next], window, now);
      if AllValid(windows) && DistinctIds(windows) {
        UnsoundBeginning(windows, next + 1);
      }
      if window.id == "" || window.id in seen {
        return;
      }
      seen := seen + {window.id};
      var valid := Validate(window);
      if !valid {
        return;
      }
      next := next + 1;
      DisabledIsClosed(window, now);
      if window.enabled {
        enabled := true;
        if IsOpen(window, now) {
          openIds := openIds + [window.id];
        }
      }
    }
    assert windows[..next] == windows;
    ok := true;
  }

  /** The gate opens exactly when both clocks are set and agree, the whole window policy is
      valid, and the trusted time lies in an enabled window; it then lists just the open
      windows, in order. Otherwise the reason names the first thing that is wrong. */
  method Evaluate(windows: seq<Window>, agentNow: int, trustedNow: int) returns (decision: Decision)
    ensures decision.allowed <==>
      ClocksAgree(agentNow, trustedNow) && AllValid(windows) && DistinctIds(windows) && OpenNow(windows, trustedNow)
    ensures decision.windowIds == if decision.allowed then OpenIds(windows, trustedNow) else []
    ensures decision.reason ==
            if agentNow == ZERO_TIME || trustedNow == ZERO_TIME then InvalidEvaluationTime
            else if !ClocksAgree(agentNow, trustedNow) then ClockDriftDetected
            else if !AllValid(windows) || !DistinctIds(windows) then InvalidWindowPolicy
            else if decision.allowed then ApprovedWindowOpen
            else if SomeEnabled(windows) then OutsideApprovedWindow else NoEnabledWindow
    ensures decision.allowed ==> -5 * MINUTE <= agentNow - trustedNow <= 5 * MINUTE
    ensures decision.reason.ClockDriftDetected? ==>
      agentNow < trustedNow - 5 * MINUTE || trustedNow + 5 * MINUTE < agentNow
    ensures agentNow != ZERO_TIME && trustedNow != ZERO_TIME ==>
      decision.evaluatedAt == trustedNow && decision.clockDriftSeconds == Absolute(agentNow - trustedNow) / SECOND
  {
    hide AllValid, DistinctIds, SomeEnabled, OpenIds, OpenNow;
    if agentNow == ZERO_TIME || trustedNow == ZERO_TIME {
      return Decision(false, InvalidEvaluationTime, [], ZERO_TIME, 0);
    }
    var drift := Absolute(agentNow - trustedNow);
    decision := Decision(false, NoEnabledWindow, [], trustedNow, drift / SECOND);
    if drift > MAXIMUM_CLOCK_DRIFT {
      return decision.(reason := ClockDriftDetected);
    }
    var ok, enabled, openIds := Admit(windows, trustedNow);
    if !ok {
      return decision.(reason := InvalidWindowPolicy);
    }
    OpenIdsMeaning(windows, trustedNow);
    if |openIds| > 0 {
      return decision.(allowed := true, reason := ApprovedWindowOpen, windowIds := openIds);
    }
    if enabled {
      return decision.(reason := OutsideApprovedWindow);
    }
  }
}
