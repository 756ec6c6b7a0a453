/** Safety of the self-update over every run: any sequence of boots, check-ins, offers,
    input/output failures, crashes between durable steps and stops. */
module AgentUpdateRuns {
  import opened GoStrings
  import opened GoTime
  import opened AgentVersion
  import opened AgentUpdate

  datatype Process = Down | Up(image: Image)

  datatype Agent = Agent(disk: Disk, process: Process)

  /** `crash == Some(k)` kills the process after `k` durable steps of the event's trace. */
  datatype Event =
    | Boot(now: int, faults: set<Point>, crash: Option<nat>)
    | CheckIn(confirmAt: int, offer: Option<Offer>, faults: set<Point>, crash: Option<nat>)
    | Stop

  function Min(a: nat, b: nat): nat { if a < b then a else b }

  /** The disk a trace leaves behind when it is cut short by a crash. */
  function Crashed(d: Disk, trace: Trace, crash: Option<nat>): Disk {
    match crash
    case None => Last(d, trace)
    case Some(k) => After(d, trace, Min(k, |trace.disks|))
  }

  /** Booting runs the installed executable, which recovers before anything else and
      exits unless recovery had nothing to do (cmd/mossward-agent/platform_unix.go). A
      check-in that asks for a restart ends the process; any other result keeps it up. */
  function Step(a: Agent, e: Event): Agent {
    match (e, a.process)
    case (Boot(now, faults, crash), Down) =>
      var trace := RecoverTrace(a.disk, now, faults);
      Agent(Crashed(a.disk, trace, crash),
            if crash.None? && trace.outcome.Done? then Up(a.disk.executable) else Down)
    case (CheckIn(confirmAt, offer, faults, crash), Up(image)) =>
      var trace := CheckInTrace(a.disk, image.version, confirmAt, offer, faults);
      Agent(Crashed(a.disk, trace, crash),
            if crash.None? && !trace.outcome.RestartRequired? then Up(image) else Down)
    case (Stop, _) => a.(process := Down)
    case _ => a
  }

  function Run(a: Agent, events: seq<Event>): Agent
    decreases |events|
  {
    if events == [] then a else Run(Step(a, events[0]), events[1..])
  }

  // ----- The invariant

  /** The known-good copy that the record names is there, has the recorded size and
      digest, and is a build of the recorded version. */
  predicate KnownGoodKept(d: Disk, t: Transaction) {
    && t.previous.file == KnownGoodName(t.previous.version)
    && t.previous.file in d.knownGood
    && Verifies(d.knownGood[t.previous.file], t.previous.size, t.previous.digest)
    && d.knownGood[t.previous.file].version == t.previous.version
  }

  predicate PreviousInstalled(d: Disk, t: Transaction) { Sha256(d.executable) == t.previous.digest }

  predicate TargetInstalled(d: Disk, t: Transaction) { Sha256(d.executable) == t.targetDigest }

  /** The record and the installed executable agree. */
  predicate Consistent(d: Disk, t: Transaction) {
    match t.state
    case Prepared => PreviousInstalled(d, t)
    case RolledBack => PreviousInstalled(d, t)
    case Committed => TargetInstalled(d, t) && d.executable.version == t.targetVersion
    case AwaitingHealth => PreviousInstalled(d, t) || TargetInstalled(d, t)
    case RollbackRequired => PreviousInstalled(d, t) || TargetInstalled(d, t)
  }

  predicate AtLeast(baseline: string, version: string) {
    version == baseline || IsUpgrade(baseline, version)
  }

  /** What every durable state satisfies; `baseline` is the version first installed. */
  predicate SafeRecord(d: Disk, t: Transaction, baseline: string) {
    && t.Validate()
    && IsUpgrade(t.previous.version, t.targetVersion)
    && AtLeast(baseline, t.previous.version)
    && KnownGoodKept(d, t)
    && Consistent(d, t)
  }

  predicate Safe(d: Disk, baseline: string) {
    if d.record.None? then d.executable.version == baseline else SafeRecord(d, d.record.value, baseline)
  }

  /** A running process is the installed executable, except while a failed directory sync
      leaves the old process running next to the new executable. */
  predicate Coupled(d: Disk, image: Image) {
    if d.record.None? then image == d.executable
    else
      var t := d.record.value;
      && (image == d.executable || (t.state.AwaitingHealth? && Sha256(image) == t.previous.digest))
      && (t.state.RollbackRequired? ==> image.version == t.targetVersion)
  }

  predicate Inv(a: Agent, baseline: string) {
    Safe(a.disk, baseline) && (a.process.Up? ==> Coupled(a.disk, a.process.image))
  }

  /** Every durable state of a trace is safe. */
  predicate SafeTrace(d: Disk, trace: Trace, baseline: string) {
    forall n :: 0 <= n <= |trace.disks| ==> Safe(After(d, trace, n), baseline)
  }

  lemma SafeInSequence(d: Disk, first: Trace, second: Trace, baseline: string)
    requires SafeTrace(d, first, baseline) && SafeTrace(Last(d, first), second, baseline)
    ensures var both := Trace(first.disks + second.disks, second.outcome);
      SafeTrace(d, both, baseline) && Last(d, both) == Last(Last(d, first), second)
  {
    hide Safe;
    var both := Trace(first.disks + second.disks, second.outcome);
    forall n | 0 <= n <= |both.disks|
      ensures Safe(After(d, both, n), baseline)
    {
      if n <= |first.disks| {
        assert After(d, both, n) == After(d, first, n);
      } else {
        assert After(d, both, n) == After(Last(d, first), second, n - |first.disks|);
      }
    }
  }

  // ----- Each operation keeps the invariant

  lemma RecoverSafe(d: Disk, now: int, faults: set<Point>, baseline: string)
    requires Safe(d, baseline)
    ensures SafeTrace(d, RecoverTrace(d, now, faults), baseline)
    ensures RecoverTrace(d, now, faults).outcome.Done? ==>
      && RecoverTrace(d, now, faults).disks == []
      && (d.record.Some? ==> !d.record.value.state.RollbackRequired?)
  {
    hide MatchesVersionPattern, IsUpgrade;
  }

  /** The commit rule. Only a process whose version is the target's reaches the commit, the
      known-good copy has another version, so the target is what is installed. */
  lemma ConfirmSafe(d: Disk, image: Image, now: int, faults: set<Point>, baseline: string)
    requires Safe(d, baseline) && Coupled(d, image)
    ensures var trace := ConfirmTrace(d, image.version, now, faults);
      && SafeTrace(d, trace, baseline)
      && Coupled(Last(d, trace), image)
      && (trace.outcome.Done? ==>
            var after := Last(d, trace);
            after.record.Some? ==> !after.record.value.state.AwaitingHealth?)
  {
    hide MatchesVersionPattern, IsUpgrade;
    if d.record.Some? {
      UpgradeIrreflexive(d.record.value.targetVersion);
    }
  }

  /** A process that gets past health confirmation is the installed executable, and its
      version is the baseline or an upgrade of it. */
  lemma RunningVersion(d: Disk, image: Image, baseline: string)
    requires Safe(d, baseline) && Coupled(d, image)
    requires d.record.Some? ==> !d.record.value.state.AwaitingHealth?
    ensures image == d.executable && AtLeast(baseline, image.version)
  {
    hide MatchesVersionPattern, IsUpgrade;
    if d.record.Some? {
      var t := d.record.value;
      UpgradeTransitive(baseline, t.previous.version, t.targetVersion);
    }
  }

  lemma ActivateSafe(d: Disk, t: Transaction, faults: set<Point>, baseline: string)
    requires d.record == Some(t) && t.state.Prepared? && SafeRecord(d, t, baseline)
    ensures var trace := ActivateTrace(d, t, faults);
      && SafeTrace(d, trace, baseline)
      && (!trace.outcome.RestartRequired? ==> Coupled(Last(d, trace), d.executable))
  {
    hide MatchesVersionPattern, IsUpgrade;
  }

  lemma InstallSafe(d: Disk, t: Transaction, offer: Offer, faults: set<Point>, baseline: string)
    requires Safe(d, baseline) && Coupled(d, d.executable)
    requires t.state.Prepared? && (t.Validate() ==> SafeRecord(d, t, baseline))
    ensures var trace := InstallTrace(d, t, offer, faults);
      && SafeTrace(d, trace, baseline)
      && (!trace.outcome.RestartRequired? ==> Coupled(Last(d, trace), d.executable))
  {
    hide MatchesVersionPattern, IsUpgrade;
    var staged := d.(candidates := d.candidates[offer.manifest.version := offer.artifact]);
    if t.Validate() {
      ActivateSafe(staged.(record := Some(t)), t, faults, baseline);
    }
  }

  lemma OfferSafe(d: Disk, image: Image, offer: Offer, faults: set<Point>, baseline: string)
    requires Safe(d, baseline) && Coupled(d, image)
    requires d.record.Some? ==> !d.record.value.state.AwaitingHealth?
    ensures var trace := OfferTrace(d, image.version, offer, faults);
      && SafeTrace(d, trace, baseline)
      && (!trace.outcome.RestartRequired? ==> Coupled(Last(d, trace), image))
  {
    hide MatchesVersionPattern, IsUpgrade, InstallTrace;
    RunningVersion(d, image, baseline);
    if IsUpgrade(image.version, offer.manifest.version) && CanPreserve(d, image.version, faults) {
      var preserved, t := Preserved(d, image.version), Prepare(d, image.version, offer);
      InstallSafe(preserved, t, offer, faults, baseline);
      SafeInSequence(d, Trace([preserved], Done), InstallTrace(preserved, t, offer, faults), baseline);
    }
  }

  lemma CheckInSafe(d: Disk, image: Image, confirmAt: int, offer: Option<Offer>, faults: set<Point>, baseline: string)
    requires Safe(d, baseline) && Coupled(d, image)
    ensures var trace := CheckInTrace(d, image.version, confirmAt, offer, faults);
      && SafeTrace(d, trace, baseline)
      && (!trace.outcome.RestartRequired? ==> Coupled(Last(d, trace), image))
  {
    hide MatchesVersionPattern, IsUpgrade, OfferTrace, ConfirmTrace, Safe, Coupled;
    ConfirmSafe(d, image, confirmAt, faults, baseline);
    var confirm := ConfirmTrace(d, image.version, confirmAt, faults);
    if confirm.outcome.Done? && offer.Some? {
      OfferSafe(Last(d, confirm), image, offer.value, faults, baseline);
      SafeInSequence(d, confirm, OfferTrace(Last(d, confirm), image.version, offer.value, faults), baseline);
    }
  }

  lemma StepSafe(a: Agent, e: Event, baseline: string)
    ensures Inv(a, baseline) ==> Inv(Step(a, e), baseline)
  {
    hide MatchesVersionPattern, IsUpgrade, RecoverTrace, CheckInTrace;
    if Inv(a, baseline) {
      match (e, a.process)
      case (Boot(now, faults, _), Down) => RecoverSafe(a.disk, now, faults, baseline);
      case (CheckIn(confirmAt, offer, faults, _), Up(image)) =>
        CheckInSafe(a.disk, image, confirmAt, offer, faults, baseline);
      case _ =>
    }
  }

  lemma {:induction false} RunKeepsInv(a: Agent, events: seq<Event>, baseline: string)
    ensures Inv(a, baseline) ==> Inv(Run(a, events), baseline)
    decreases |events|
  {
    if events == [] {
    } else {
      StepSafe(a, events[0], baseline);
      RunKeepsInv(Step(a, events[0]), events[1..], baseline);
    }
  }

  // ----- Nothing happens to the executable without a record

  /** A disk without a record is one that never had one, with the executable it had. */
  predicate Recorded(before: Disk, after: Disk) {
    after.record.None? ==> before.record.None? && after.executable == before.executable
  }

  predicate RecordedTrace(d: Disk, trace: Trace) {
    forall n :: 0 <= n <= |trace.disks| ==> Recorded(d, After(d, trace, n))
  }

  lemma RecordedInSequence(d: Disk, first: Trace, second: Trace)
    requires RecordedTrace(d, first) && RecordedTrace(Last(d, first), second)
    ensures RecordedTrace(d, Trace(first.disks + second.disks, second.outcome))
  {
    var both := Trace(first.disks + second.disks, second.outcome);
    forall n | 0 <= n <= |both.disks|
      ensures Recorded(d, After(d, both, n))
    {
      assert Recorded(d, Last(d, first));
      if n <= |first.disks| {
        assert After(d, both, n) == After(d, first, n);
      } else {
        assert After(d, both, n) == After(Last(d, first), second, n - |first.disks|);
      }
    }
  }

  lemma RecoverRecorded(d: Disk, now: int, faults: set<Point>)
    ensures RecordedTrace(d, RecoverTrace(d, now, faults))
  {
    hide MatchesVersionPattern;
  }

  lemma ConfirmRecorded(d: Disk, running: string, now: int, faults: set<Point>)
    ensures RecordedTrace(d, ConfirmTrace(d, running, now, faults))
  {
    hide MatchesVersionPattern;
  }

  /** The awaiting record is durable before the rename. */
  lemma ActivateRecorded(d: Disk, t: Transaction, faults: set<Point>)
    ensures RecordedTrace(d, ActivateTrace(d, t, faults))
  {
    hide MatchesVersionPattern;
  }

  lemma InstallRecorded(d: Disk, t: Transaction, offer: Offer, faults: set<Point>)
    ensures RecordedTrace(d, InstallTrace(d, t, offer, faults))
  {
    hide MatchesVersionPattern, ActivateTrace;
    var staged := d.(candidates := d.candidates[offer.manifest.version := offer.artifact]);
    var prepared := staged.(record := Some(t));
    ActivateRecorded(prepared, t, faults);
    RecordedInSequence(d, Trace([staged, prepared], Done), ActivateTrace(prepared, t, faults));
  }

  lemma OfferRecorded(d: Disk, running: string, offer: Offer, faults: set<Point>)
    ensures RecordedTrace(d, OfferTrace(d, running, offer, faults))
  {
    hide MatchesVersionPattern, IsUpgrade, InstallTrace;
    var preserved, t := Preserved(d, running), Prepare(d, running, offer);
    InstallRecorded(preserved, t, offer, faults);
    RecordedInSequence(d, Trace([preserved], Done), InstallTrace(preserved, t, offer, faults));
  }

  lemma CheckInRecorded(d: Disk, running: string, confirmAt: int, offer: Option<Offer>, faults: set<Point>)
    ensures RecordedTrace(d, CheckInTrace(d, running, confirmAt, offer, faults))
  {
    hide ConfirmTrace, OfferTrace, Recorded;
    var confirm := ConfirmTrace(d, running, confirmAt, faults);
    ConfirmRecorded(d, running, confirmAt, faults);
    if offer.Some? {
      OfferRecorded(Last(d, confirm), running, offer.value, faults);
      RecordedInSequence(d, confirm, OfferTrace(Last(d, confirm), running, offer.value, faults));
    }
  }

  lemma StepRecorded(a: Agent, e: Event)
    ensures Recorded(a.disk, Step(a, e).disk)
  {
    hide RecoverTrace, CheckInTrace;
    match (e, a.process)
    case (Boot(now, faults, _), Down) => RecoverRecorded(a.disk, now, faults);
    case (CheckIn(confirmAt, offer, faults, _), Up(image)) =>
      CheckInRecorded(a.disk, image.version, confirmAt, offer, faults);
    case _ =>
  }

  /** In every run, whatever the agent started from: as long as there is no record, there
      never was one, and the executable is the one the run started with. */
  lemma {:induction false} UnrecordedIsOriginal(a: Agent, events: seq<Event>)
    ensures var d := Run(a, events).disk;
      d.record.None? ==> a.disk.record.None? && d.executable == a.disk.executable
    decreases |events|
  {
    hide Step;
    if events == [] {
    } else {
      StepRecorded(a, events[0]);
      UnrecordedIsOriginal(Step(a, events[0]), events[1..]);
    }
  }

  // ----- What it means

  predicate Fresh(a: Agent) { a.disk.record.None? && a.process.Down? }

  /** In every run from an installation without a record, the executable is the recorded
      previous or target one: previous while prepared or rolled back, target once
      committed, and then with the version the record promised. */
  lemma InstalledMatchesRecord(a: Agent, events: seq<Event>)
    ensures var d := Run(a, events).disk;
      Fresh(a) && d.record.Some? ==>
        var t := d.record.value;
        && (PreviousInstalled(d, t) || TargetInstalled(d, t))
        && (t.state.Prepared? || t.state.RolledBack? ==> PreviousInstalled(d, t))
        && (t.state.Committed? ==> TargetInstalled(d, t) && d.executable.version == t.targetVersion)
  {
    hide MatchesVersionPattern, IsUpgrade, Step;
    RunKeepsInv(a, events, a.disk.executable.version);
  }

  /** Write-ahead: whenever something else than the original executable is installed, and it
      is neither committed nor the recorded previous one, a durable record says so, and the
      copy to go back to is on disk, intact. */
  lemma RollbackAlwaysPossible(a: Agent, events: seq<Event>)
    ensures var d := Run(a, events).disk;
      (&& Fresh(a) && (d.executable != a.disk.executable || d.record.Some?)
       && !(d.record.Some? && (PreviousInstalled(d, d.record.value) || d.record.value.state.Committed?))) ==>
        && d.record.Some?
        && var t := d.record.value;
        && (t.state.AwaitingHealth? || t.state.RollbackRequired?)
        && t.previous.file in d.knownGood
        && Verifies(d.knownGood[t.previous.file], t.previous.size, t.previous.digest)
  {
    hide MatchesVersionPattern, IsUpgrade, Step;
    RunKeepsInv(a, events, a.disk.executable.version);
    UnrecordedIsOriginal(a, events);
  }

  /** In every run, an executable with no update under way has the original version or an
      upgrade of it. */
  lemma NeverDowngraded(a: Agent, events: seq<Event>)
    ensures var d := Run(a, events).disk;
      Fresh(a) && (d.record.Some? ==> d.record.value.state in {Prepared, RolledBack, Committed}) ==>
        AtLeast(a.disk.executable.version, d.executable.version)
  {
    hide MatchesVersionPattern, IsUpgrade, Step;
    var baseline, d := a.disk.executable.version, Run(a, events).disk;
    RunKeepsInv(a, events, baseline);
    if Fresh(a) && d.record.Some? {
      var t := d.record.value;
      UpgradeTransitive(baseline, t.previous.version, t.targetVersion);
    }
  }

  /** After a rename whose directory sync failed, the old process stays up next to the new
      executable. It can neither commit nor change anything until it is restarted. */
  lemma OldProcessIsInert(d: Disk, image: Image, confirmAt: int, offer: Option<Offer>, faults: set<Point>, baseline: string)
    ensures (&& Safe(d, baseline) && d.record.Some? && d.record.value.state.AwaitingHealth?
             && Sha256(image) == d.record.value.previous.digest) ==>
      CheckInTrace(d, image.version, confirmAt, offer, faults) == Trace([], Failed)
  {
    hide MatchesVersionPattern, IsUpgrade, OfferTrace;
    if d.record.Some? {
      UpgradeIrreflexive(d.record.value.targetVersion);
    }
  }

  /** A check-in commits exactly when the running process has the target's version, before
      the deadline; that process is then the target, and it is what is installed. */
  lemma CommitRule(d: Disk, image: Image, now: int, faults: set<Point>, baseline: string)
    ensures var trace := ConfirmTrace(d, image.version, now, faults);
      Safe(d, baseline) && Coupled(d, image) && d.record.Some? && d.record.value.state.AwaitingHealth? ==>
        var t := d.record.value;
        && (Last(d, trace).record == Some(t.(state := Committed)) <==>
              image.version == t.targetVersion && now < t.healthDeadline && ConfirmSave !in faults)
        && (Last(d, trace).record == Some(t.(state := Committed)) ==> image == d.executable && TargetInstalled(d, t))
  {
    hide MatchesVersionPattern, IsUpgrade;
    if d.record.Some? {
      UpgradeIrreflexive(d.record.value.targetVersion);
    }
  }

  /** A restored executable never appears without a durable record of the rollback. */
  lemma RollbackRecordedFirst(d: Disk, now: int, faults: set<Point>, n: nat)
    requires n <= |RecoverTrace(d, now, faults).disks|
    ensures var after := After(d, RecoverTrace(d, now, faults), n);
      after != d ==> after.record.Some? && after.record.value.state in {RollbackRequired, RolledBack}
  {
    hide MatchesVersionPattern;
  }

  /** The offer is an upgrade and nothing on disk is in its way: the executable can be
      preserved, the artifact is the promised one, and neither is there already. */
  predicate Unobstructed(d: Disk, running: string, offer: Offer) {
    && offer.manifest.Validate()
    && IsUpgrade(running, offer.manifest.version)
    && CanPreserve(d, running, {})
    && CanStage(d, offer, {})
  }

  /** The first offer to this agent, for a build of the version it announces. */
  predicate Installable(d: Disk, offer: Offer) {
    && d.record.None?
    && Unobstructed(d, d.executable.version, offer)
    && offer.artifact.version == offer.manifest.version
  }

  /** The disk right after an offer has been activated. */
  function Awaiting(d: Disk, offer: Offer): Disk {
    var running := d.executable.version;
    Disk(offer.artifact, Some(Prepare(d, running, offer).(state := AwaitingHealth)),
         d.knownGood[KnownGoodName(running) := d.executable],
         d.candidates[offer.manifest.version := offer.artifact])
  }

  lemma UpgradeMatches(current: string, target: string)
    ensures IsUpgrade(current, target) ==> MatchesVersionPattern(current)
  {
    hide MatchesVersionPattern;
  }

  lemma PreparedValid(d: Disk, running: string, offer: Offer)
    ensures Unobstructed(d, running, offer) ==> Prepare(d, running, offer).Validate()
  {
    hide MatchesVersionPattern;
    if Unobstructed(d, running, offer) {
      assert MatchesVersionPattern(running) by { UpgradeMatches(running, offer.manifest.version); }
      VersionHasNoSlash(running);
      assert KnownGoodName(running)[0] == 'k';
    }
  }

  /** Without failures an offer is taken up exactly when nothing is in its way. */
  lemma OfferActivatesIff(d: Disk, running: string, offer: Offer)
    ensures OfferTrace(d, running, offer, {}).outcome.RestartRequired? <==> Unobstructed(d, running, offer)
  {
    hide MatchesVersionPattern, IsUpgrade;
    PreparedValid(d, running, offer);
  }

  lemma OfferActivates(d: Disk, offer: Offer)
    ensures Installable(d, offer) ==>
      var trace := OfferTrace(d, d.executable.version, offer, {});
      trace.outcome.RestartRequired? && Last(d, trace) == Awaiting(d, offer)
  {
    hide MatchesVersionPattern, IsUpgrade;
    PreparedValid(d, d.executable.version, offer);
  }

  lemma RunThree(a: Agent, first: Event, second: Event, third: Event)
    ensures Run(a, [first, second, third]) == Step(Step(Step(a, first), second), third)
  {
    hide Step;
    var b, c := Step(a, first), Step(Step(a, first), second);
    assert [first, second, third][1..] == [second, third] && [second, third][1..] == [third] && [third][1..] == [];
    assert Run(a, [first, second, third]) == Run(b, [second, third]) == Run(c, [third]) == Run(Step(c, third), []);
  }

  /** Without failures an update succeeds: offer, restart and check-in before the deadline
      end committed, with the new executable installed and running. */
  lemma UpdateSucceeds(d: Disk, offer: Offer, checkInAt: int, bootAt: int, confirmAt: int)
    ensures var deadline := offer.now + offer.manifest.healthTimeoutSeconds * SECOND;
      var b := Run(Agent(d, Up(d.executable)),
                   [CheckIn(checkInAt, Some(offer), {}, None), Boot(bootAt, {}, None), CheckIn(confirmAt, None, {}, None)]);
      Installable(d, offer) && bootAt < deadline && confirmAt < deadline ==>
        && b.process == Up(offer.artifact) && b.disk.executable == offer.artifact
        && b.disk.record == Some(Prepare(d, d.executable.version, offer).(state := Committed))
  {
    hide MatchesVersionPattern, IsUpgrade, OfferTrace;
    OfferActivates(d, offer);
    PreparedValid(d, d.executable.version, offer);
    var events := [CheckIn(checkInAt, Some(offer), {}, None), Boot(bootAt, {}, None), CheckIn(confirmAt, None, {}, None)];
    var a := Agent(d, Up(d.executable));
    if Installable(d, offer) {
      assert Step(a, events[0]) == Agent(Awaiting(d, offer), Down);
      RunThree(a, events[0], events[1], events[2]);
    }
  }

  // ----- Recovery converges

  /** A boot that happens after the health deadline, however it ends, or a stop. */
  predicate LateBootOrStop(e: Event, t: Transaction) {
    e.Stop? || (e.Boot? && (t.state.RollbackRequired? || e.now >= t.healthDeadline))
  }

  /** On the way from a due rollback of `t`, or through it. */
  predicate RollingBack(d: Disk, t: Transaction) {
    && t.Validate()
    && KnownGoodKept(d, t)
    && (|| d.record == Some(t)
        || d.record == Some(t.(state := RollbackRequired))
        || (d.record == Some(t.(state := RolledBack)) && PreviousInstalled(d, t)))
  }

  predicate Settled(d: Disk, t: Transaction) {
    d.record == Some(t.(state := RolledBack)) && PreviousInstalled(d, t)
  }

  predicate Due(t: Transaction) { t.state.RollbackRequired? || t.state.AwaitingHealth? }

  lemma LateRecovery(d: Disk, t: Transaction, now: int, faults: set<Point>)
    requires RollingBack(d, t) && Due(t) && LateBootOrStop(Boot(now, faults, None), t)
    ensures var trace := RecoverTrace(d, now, faults);
      && (forall n :: 0 <= n <= |trace.disks| ==> RollingBack(After(d, trace, n), t))
      && (trace.outcome.Done? ==> trace.disks == [] && Settled(d, t))
      && (faults == {} ==> Settled(Last(d, trace), t))
  {
    hide MatchesVersionPattern;
  }

  lemma LateBootStep(a: Agent, e: Event, t: Transaction)
    requires RollingBack(a.disk, t) && Due(t) && LateBootOrStop(e, t)
    requires a.process.Up? ==> Settled(a.disk, t)
    ensures var b := Step(a, e);
      && RollingBack(b.disk, t)
      && (b.process.Up? ==> Settled(b.disk, t))
      && (e.Boot? && e.faults == {} && e.crash.None? ==> Settled(b.disk, t))
  {
    hide RollingBack, Settled, RecoverTrace, CheckInTrace;
    if e.Boot? {
      LateRecovery(a.disk, t, e.now, e.faults);
    }
  }

  /** Once a rollback is due, any number of boots, each failing or crashing anywhere, then
      one boot that completes, end rolled back with the known-good executable installed;
      and recovering again does nothing. */
  lemma {:induction false} RecoveryConverges(a: Agent, events: seq<Event>, t: Transaction, now: int)
    requires RollingBack(a.disk, t) && Due(t) && (a.process.Up? ==> Settled(a.disk, t))
    requires forall e :: e in events ==> LateBootOrStop(e, t)
    requires LateBootOrStop(Boot(now, {}, None), t)
    ensures var d := Run(a, events + [Boot(now, {}, None)]).disk;
      && Settled(d, t) && KnownGoodKept(d, t)
      && d.executable == d.knownGood[t.previous.file]
      && forall later, faults :: RecoverTrace(d, later, faults) == Trace([], Done)
    decreases |events|
  {
    hide MatchesVersionPattern, CheckInTrace;
    var last := Boot(now, {}, None);
    if events == [] {
      LateBootStep(a, last, t);
      assert Run(a, [last]) == Run(Step(a, last), []);
    } else {
      LateBootStep(a, events[0], t);
      RecoveryConverges(Step(a, events[0]), events[1..], t, now);
      assert (events + [last])[1..] == events[1..] + [last];
    }
  }

  /** The same from every reachable agent whose rollback is due. */
  lemma EveryDueRollbackCompletes(a: Agent, events: seq<Event>, boots: seq<Event>, now: int)
    ensures var b := Run(a, events);
      (&& Fresh(a) && b.process.Down? && b.disk.record.Some? && Due(b.disk.record.value)
       && (forall e :: e in boots ==> LateBootOrStop(e, b.disk.record.value))
       && LateBootOrStop(Boot(now, {}, None), b.disk.record.value)) ==>
        var t, d := b.disk.record.value, Run(b, boots + [Boot(now, {}, None)]).disk;
        Settled(d, t) && KnownGoodKept(d, t) && d.executable == d.knownGood[t.previous.file]
  {
    hide MatchesVersionPattern, IsUpgrade, Step;
    var b := Run(a, events);
    RunKeepsInv(a, events, a.disk.executable.version);
    if (&& Fresh(a) && b.process.Down? && b.disk.record.Some? && Due(b.disk.record.value)
        && (forall e :: e in boots ==> LateBootOrStop(e, b.disk.record.value))
        && LateBootOrStop(Boot(now, {}, None), b.disk.record.value)) {
      RecoveryConverges(b, boots, b.disk.record.value, now);
    }
  }

  // ----- Agents that can never be updated again

  /** No update is under way. */
  predicate Idle(d: Disk) {
    d.record.Some? ==> !d.record.value.state.AwaitingHealth? && !d.record.value.state.RollbackRequired?
  }

  /** No update is under way, and the installed version has a known-good copy already, so it
      cannot be preserved a second time. */
  predicate Frozen(a: Agent) {
    && Idle(a.disk)
    && KnownGoodName(a.disk.executable.version) in a.disk.knownGood
    && (a.process.Up? ==> a.process.image == a.disk.executable)
  }

  lemma FrozenStep(a: Agent, e: Event)
    ensures Frozen(a) ==> Step(a, e).disk == a.disk && Frozen(Step(a, e))
  {
    hide MatchesVersionPattern, IsUpgrade, InstallTrace;
  }

  /** A frozen agent never changes its disk again, whatever it is offered. */
  lemma {:induction false} FrozenRun(a: Agent, events: seq<Event>)
    ensures Frozen(a) ==> Run(a, events).disk == a.disk
    decreases |events|
  {
    hide Frozen, Step;
    if events == [] {
    } else {
      FrozenStep(a, events[0]);
      FrozenRun(Step(a, events[0]), events[1..]);
    }
  }

  /** A safe idle agent that runs what is installed takes up an offer, without failures,
      exactly when nothing is in its way; a frozen one takes up none. */
  lemma IdleAgentUpdatesIff(d: Disk, confirmAt: int, offer: Offer, baseline: string)
    ensures var trace := CheckInTrace(d, d.executable.version, confirmAt, Some(offer), {});
      Safe(d, baseline) && Idle(d) ==>
        && (trace.outcome.RestartRequired? <==> Unobstructed(d, d.executable.version, offer))
        && (Frozen(Agent(d, Up(d.executable))) ==> !trace.outcome.RestartRequired?)
  {
    hide MatchesVersionPattern, IsUpgrade, OfferTrace;
    OfferActivatesIff(d, d.executable.version, offer);
  }

  /** Prepared and rolled-back agents are frozen. */
  lemma LeftoverIsFrozen(a: Agent, baseline: string)
    ensures Inv(a, baseline) && a.disk.record.Some? && a.disk.record.value.state in {Prepared, RolledBack} ==> Frozen(a)
  {
    hide MatchesVersionPattern, IsUpgrade;
  }

  /** So is an agent whose first download failed: it kept the copy and nothing else. */
  lemma FailedDownloadFreezes(d: Disk, confirmAt: int, offer: Offer, faults: set<Point>, later: seq<Event>)
    ensures var a := Agent(d, Up(d.executable));
      var b := Step(a, CheckIn(confirmAt, Some(offer), faults, None));
      d.record.None? && Unobstructed(d, d.executable.version, offer) && StageCopy in faults && PreserveCopy !in faults ==>
        b == Agent(Preserved(d, d.executable.version), Up(d.executable)) && Run(b, later).disk == b.disk != d
  {
    hide MatchesVersionPattern, IsUpgrade, Run;
    var b := Step(Agent(d, Up(d.executable)), CheckIn(confirmAt, Some(offer), faults, None));
    FrozenRun(b, later);
  }

  lemma {:induction false} RunInSequence(a: Agent, first: seq<Event>, second: seq<Event>)
    ensures Run(a, first + second) == Run(Run(a, first), second)
    decreases |first|
  {
    hide Step;
    if first == [] {
      assert first + second == second;
    } else {
      RunInSequence(Step(a, first[0]), first[1..], second);
      assert (first + second)[1..] == first[1..] + second;
    }
  }

  /** In every run, an agent that is prepared or rolled back, or idle with a known-good copy
      of what it runs, has reached its last disk. */
  lemma FrozenForGood(a: Agent, events: seq<Event>, later: seq<Event>)
    ensures var b := Run(a, events);
      Fresh(a) && (Frozen(b) || (b.disk.record.Some? && b.disk.record.value.state in {Prepared, RolledBack})) ==>
        Run(a, events + later).disk == b.disk
  {
    hide MatchesVersionPattern, IsUpgrade, Step, Frozen;
    RunKeepsInv(a, events, a.disk.executable.version);
    LeftoverIsFrozen(Run(a, events), a.disk.executable.version);
    FrozenRun(Run(a, events), later);
    RunInSequence(a, events, later);
  }

  /** In particular a rolled-back agent never changes its disk again, whatever it is offered. */
  lemma RollbackIsFinal(a: Agent, events: seq<Event>, later: seq<Event>)
    ensures var d := Run(a, events).disk;
      Fresh(a) && d.record.Some? && d.record.value.state.RolledBack? ==> Run(a, events + later).disk == d
  {
    hide Run, Frozen;
    FrozenForGood(a, events, later);
  }
}
