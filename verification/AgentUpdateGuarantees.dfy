/** What the self-update promises its operator: versions never go down in the numbers that
    are written, a missed health deadline is final, nothing is installed unverified, and an
    offer is carried out in one order. */
module AgentUpdateGuarantees {
  import opened GoStrings
  import opened GoTime
  import opened AgentVersion
  import opened AgentUpdate
  import opened AgentUpdateRuns

  // ----- Versions never go down

  /** In every run from an installation without a record, an executable with no update under
      way is not lower than the original, in the numbers and the prereleases that their
      versions are written with. */
  lemma NeverLowered(a: Agent, events: seq<Event>, original: Release, installed: Release)
    requires original.Valid() && installed.Valid()
    ensures var d := Run(a, events).disk;
      (&& Fresh(a) && (d.record.Some? ==> d.record.value.state in {Prepared, RolledBack, Committed})
       && a.disk.executable.version == original.Text() && d.executable.version == installed.Text()) ==>
        !Lower(installed, original)
  {
    hide Run, IsUpgrade, Release.Text, Lower;
    NeverDowngraded(a, events);
    UpgradeIrreflexive(original.Text());
    UpgradeTransitive(original.Text(), installed.Text(), original.Text());
    UpgradeMeaning(installed, original);
  }

  // ----- A missed deadline is final

  /** A check-in of the target at or after its deadline, whose save works, records that the
      update must be rolled back, and does nothing else. */
  lemma MissedDeadlineRecorded(d: Disk, t: Transaction, now: int, offer: Option<Offer>, faults: set<Point>)
    ensures (&& d.record == Some(t) && t.Validate() && t.state.AwaitingHealth?
             && now >= t.healthDeadline && ConfirmSave !in faults) ==>
      CheckInTrace(d, t.targetVersion, now, offer, faults)
        == Trace([d.(record := Some(t.(state := RollbackRequired)))], Failed)
  {
    hide MatchesVersionPattern, OfferTrace;
  }

  /** The record is that transaction on its way back, or one for a still newer version. */
  predicate Missed(d: Disk, t: Transaction) {
    && d.record.Some?
    && var u := d.record.value;
    || u == t.(state := RollbackRequired)
    || u == t.(state := RolledBack)
    || IsUpgrade(t.targetVersion, u.targetVersion)
  }

  predicate MissedTrace(d: Disk, trace: Trace, t: Transaction) {
    forall n :: 0 <= n <= |trace.disks| ==> Missed(After(d, trace, n), t)
  }

  lemma RecoverMissed(d: Disk, now: int, faults: set<Point>, t: Transaction)
    requires Missed(d, t)
    ensures MissedTrace(d, RecoverTrace(d, now, faults), t)
  {
    hide MatchesVersionPattern, IsUpgrade;
  }

  lemma ConfirmMissed(d: Disk, running: string, now: int, faults: set<Point>, t: Transaction)
    requires Missed(d, t)
    ensures MissedTrace(d, ConfirmTrace(d, running, now, faults), t)
  {
    hide MatchesVersionPattern, IsUpgrade;
  }

  /** Whatever is installed next is an upgrade of the version that missed its deadline. */
  lemma NextIsNewer(d: Disk, image: Image, target: string, t: Transaction, baseline: string)
    requires Safe(d, baseline) && Coupled(d, image) && Missed(d, t) && !d.record.value.state.AwaitingHealth?
    requires KnownGoodName(image.version) !in d.knownGood && IsUpgrade(image.version, target)
    ensures IsUpgrade(t.targetVersion, target)
  {
    hide MatchesVersionPattern, IsUpgrade;
    UpgradeTransitive(t.targetVersion, d.record.value.targetVersion, target);
  }

  lemma OfferMissed(d: Disk, image: Image, offer: Offer, faults: set<Point>, t: Transaction, baseline: string)
    requires Safe(d, baseline) && Coupled(d, image) && Missed(d, t) && !d.record.value.state.AwaitingHealth?
    ensures MissedTrace(d, OfferTrace(d, image.version, offer, faults), t)
  {
    hide MatchesVersionPattern, IsUpgrade, Safe, Coupled;
    if CanPreserve(d, image.version, faults) && IsUpgrade(image.version, offer.manifest.version) {
      NextIsNewer(d, image, offer.manifest.version, t, baseline);
    }
  }

  lemma MissedInSequence(d: Disk, first: Trace, second: Trace, t: Transaction)
    requires MissedTrace(d, first, t) && MissedTrace(Last(d, first), second, t)
    ensures MissedTrace(d, Trace(first.disks + second.disks, second.outcome), t)
  {
    hide Missed;
    var both := Trace(first.disks + second.disks, second.outcome);
    forall n | 0 <= n <= |both.disks|
      ensures Missed(After(d, both, n), t)
    {
      if n <= |first.disks| {
        assert After(d, both, n) == After(d, first, n);
      } else {
        assert After(d, both, n) == After(Last(d, first), second, n - |first.disks|);
      }
    }
  }

  lemma CheckInMissed(d: Disk, image: Image, confirmAt: int, offer: Option<Offer>,
                      faults: set<Point>, t: Transaction, baseline: string)
    requires Safe(d, baseline) && Coupled(d, image) && Missed(d, t)
    ensures MissedTrace(d, CheckInTrace(d, image.version, confirmAt, offer, faults), t)
  {
    hide ConfirmTrace, OfferTrace, Safe, Coupled, IsUpgrade;
    var confirm := ConfirmTrace(d, image.version, confirmAt, faults);
    ConfirmMissed(d, image.version, confirmAt, faults, t);
    ConfirmSafe(d, image, confirmAt, faults, baseline);
    assert Missed(Last(d, confirm), t);
    if confirm.outcome.Done? && offer.Some? {
      OfferMissed(Last(d, confirm), image, offer.value, faults, t, baseline);
      MissedInSequence(d, confirm, OfferTrace(Last(d, confirm), image.version, offer.value, faults), t);
    }
  }

  lemma MissedStep(a: Agent, e: Event, t: Transaction, baseline: string)
    ensures Inv(a, baseline) && Missed(a.disk, t) ==> Missed(Step(a, e).disk, t)
  {
    hide RecoverTrace, CheckInTrace, Safe, Coupled, Missed;
    if Inv(a, baseline) && Missed(a.disk, t) {
      match (e, a.process)
      case (Boot(now, faults, _), Down) => RecoverMissed(a.disk, now, faults, t);
      case (CheckIn(confirmAt, offer, faults, _), Up(image)) =>
        CheckInMissed(a.disk, image, confirmAt, offer, faults, t, baseline);
      case _ =>
    }
  }

  lemma {:induction false} MissedRun(a: Agent, events: seq<Event>, t: Transaction, baseline: string)
    ensures Inv(a, baseline) && Missed(a.disk, t) ==> Missed(Run(a, events).disk, t)
    decreases |events|
  {
    hide Inv, Missed, Step;
    if events == [] {
    } else {
      MissedStep(a, events[0], t, baseline);
      StepSafe(a, events[0], baseline);
      MissedRun(Step(a, events[0]), events[1..], t, baseline);
    }
  }

  /** The event is a check-in at or after the deadline whose save works and is not cut off. */
  predicate MissesDeadline(e: Event, t: Transaction) {
    && e.CheckIn? && e.confirmAt >= t.healthDeadline && ConfirmSave !in e.faults
    && (e.crash.Some? ==> e.crash.value >= 1)
  }

  lemma FreshInv(a: Agent)
    ensures Fresh(a) ==> Inv(a, a.disk.executable.version)
  {
  }

  lemma InvValid(a: Agent, baseline: string)
    requires Inv(a, baseline) && a.disk.record.Some?
    ensures a.disk.record.value.Validate() && RollingBack(a.disk, a.disk.record.value)
  {
    hide MatchesVersionPattern, IsUpgrade;
  }

  /** In every run: once the target checks in after its deadline, the record says that it must
      be rolled back, and in every continuation, with any clock, that update is never
      committed. Its record can only become rolled back or give way to a newer version. */
  lemma MissedDeadlineIsFinal(a: Agent, events: seq<Event>, e: Event, later: seq<Event>)
    ensures var b := Run(a, events);
      (&& Fresh(a) && b.disk.record.Some? && b.disk.record.value.state.AwaitingHealth?
       && b.process.Up? && b.process.image.version == b.disk.record.value.targetVersion
       && MissesDeadline(e, b.disk.record.value)) ==>
        var t, c := b.disk.record.value, Step(b, e);
        && c.disk == b.disk.(record := Some(t.(state := RollbackRequired)))
        && var d := Run(c, later).disk;
        && d.record.Some? && d.record.value != t.(state := Committed)
        && (d.record.value.targetVersion == t.targetVersion ==>
              d.record.value == t.(state := RollbackRequired) || d.record.value == t.(state := RolledBack))
  {
    hide Run, Inv, CheckInTrace, IsUpgrade;
    var b, baseline := Run(a, events), a.disk.executable.version;
    RunKeepsInv(a, events, baseline);
    FreshInv(a);
    if (&& Fresh(a) && b.disk.record.Some? && b.disk.record.value.state.AwaitingHealth?
        && b.process.Up? && b.process.image.version == b.disk.record.value.targetVersion
        && MissesDeadline(e, b.disk.record.value)) {
      var t := b.disk.record.value;
      InvValid(b, baseline);
      MissedDeadlineRecorded(b.disk, t, e.confirmAt, e.offer, e.faults);
      StepSafe(b, e, baseline);
      MissedRun(Step(b, e), later, t, baseline);
      UpgradeIrreflexive(t.targetVersion);
    }
  }

  /** From there, the next boot that completes rolls the update back, whatever its clock says. */
  lemma NextBootRollsBack(a: Agent, events: seq<Event>, now: int)
    ensures var b := Run(a, events);
      Fresh(a) && b.process.Down? && b.disk.record.Some? && b.disk.record.value.state.RollbackRequired? ==>
        var t, d := b.disk.record.value, Step(b, Boot(now, {}, None)).disk;
        && d.record == Some(t.(state := RolledBack))
        && t.previous.file in d.knownGood && d.executable == d.knownGood[t.previous.file]
        && Sha256(d.executable) == t.previous.digest
  {
    hide Run, Inv, RecoverTrace, MatchesVersionPattern;
    var b, baseline := Run(a, events), a.disk.executable.version;
    RunKeepsInv(a, events, baseline);
    FreshInv(a);
    if Fresh(a) && b.process.Down? && b.disk.record.Some? && b.disk.record.value.state.RollbackRequired? {
      InvValid(b, baseline);
      LateBootStep(b, Boot(now, {}, None), b.disk.record.value);
    }
  }

  // ----- Nothing is installed unverified

  /** A replaced executable has the size and digest that the record names for it: those of the
      target while it awaits health, those of the known-good copy on the way back. */
  predicate Verified(before: Disk, after: Disk) {
    after.executable != before.executable ==>
      && after.record.Some?
      && var t := after.record.value;
      if t.state.AwaitingHealth? then Verifies(after.executable, t.targetSize, t.targetDigest)
      else (t.state.RollbackRequired? || t.state.RolledBack?) && Verifies(after.executable, t.previous.size, t.previous.digest)
  }

  predicate VerifiedTrace(d: Disk, trace: Trace) {
    forall n :: 0 <= n <= |trace.disks| ==> Verified(d, After(d, trace, n))
  }

  lemma RecoverVerified(d: Disk, now: int, faults: set<Point>)
    ensures VerifiedTrace(d, RecoverTrace(d, now, faults))
  {
    hide MatchesVersionPattern;
  }

  lemma ActivateVerified(d: Disk, t: Transaction, faults: set<Point>)
    ensures VerifiedTrace(d, ActivateTrace(d, t, faults))
  {
    hide MatchesVersionPattern;
  }

  lemma OfferVerified(d: Disk, running: string, offer: Offer, faults: set<Point>)
    ensures VerifiedTrace(d, OfferTrace(d, running, offer, faults))
  {
    hide MatchesVersionPattern, IsUpgrade, ActivateTrace;
    var preserved, t := Preserved(d, running), Prepare(d, running, offer);
    var staged := preserved.(candidates := preserved.candidates[offer.manifest.version := offer.artifact]);
    var prepared := staged.(record := Some(t));
    ActivateVerified(prepared, t, faults);
    var rest := ActivateTrace(prepared, t, faults);
    forall n | 0 <= n <= |rest.disks|
      ensures Verified(d, After(prepared, rest, n))
    {
      assert Verified(prepared, After(prepared, rest, n));
    }
    var trace := OfferTrace(d, running, offer, faults);
    forall n | 0 <= n <= |trace.disks|
      ensures Verified(d, After(d, trace, n))
    {
      if n >= 3 {
        assert After(d, trace, n) == After(prepared, rest, n - 3);
      }
    }
  }

  lemma ConfirmKeepsExecutable(d: Disk, running: string, now: int, faults: set<Point>, n: nat)
    requires n <= |ConfirmTrace(d, running, now, faults).disks|
    ensures After(d, ConfirmTrace(d, running, now, faults), n).executable == d.executable
  {
    hide MatchesVersionPattern;
  }

  lemma CheckInVerified(d: Disk, running: string, confirmAt: int, offer: Option<Offer>, faults: set<Point>)
    ensures VerifiedTrace(d, CheckInTrace(d, running, confirmAt, offer, faults))
  {
    hide ConfirmTrace, OfferTrace;
    var confirm, trace := ConfirmTrace(d, running, confirmAt, faults), CheckInTrace(d, running, confirmAt, offer, faults);
    ConfirmKeepsExecutable(d, running, confirmAt, faults, |confirm.disks|);
    forall n | 0 <= n <= |trace.disks|
      ensures Verified(d, After(d, trace, n))
    {
      if n <= |confirm.disks| {
        assert After(d, trace, n) == After(d, confirm, n);
        ConfirmKeepsExecutable(d, running, confirmAt, faults, n);
      } else {
        var base := Last(d, confirm);
        var rest := OfferTrace(base, running, offer.value, faults);
        OfferVerified(base, running, offer.value, faults);
        assert After(d, trace, n) == After(base, rest, n - |confirm.disks|);
        assert Verified(base, After(base, rest, n - |confirm.disks|));
      }
    }
  }

  lemma SameVerified(d: Disk)
    ensures Verified(d, d)
  {
  }

  /** From any disk at all, a damaged one included, no event, cut anywhere, installs an
      executable that was not checked against the record. */
  lemma NothingUnverified(a: Agent, e: Event)
    ensures Verified(a.disk, Step(a, e).disk)
  {
    hide RecoverTrace, CheckInTrace, Verified;
    assert Verified(a.disk, a.disk) by { SameVerified(a.disk); }
    match (e, a.process)
    case (Boot(now, faults, _), Down) => RecoverVerified(a.disk, now, faults);
    case (CheckIn(confirmAt, offer, faults, _), Up(image)) =>
      CheckInVerified(a.disk, image.version, confirmAt, offer, faults);
    case _ =>
  }

  // ----- The order of an offer's steps

  /** Without failures an offer that nothing obstructs leaves five disks behind, each changing
      one thing: the known-good copy, the staged candidate, the prepared record, the awaiting
      record, and last the executable. */
  lemma OfferInOrder(d: Disk, running: string, offer: Offer)
    ensures Unobstructed(d, running, offer) ==>
      var disks, m := OfferTrace(d, running, offer, {}).disks, offer.manifest;
      && |disks| == 5
      && disks[0] == d.(knownGood := d.knownGood["known-good-" + running := d.executable])
      && disks[1] == disks[0].(candidates := d.candidates[m.version := offer.artifact])
      && disks[2].record.Some?
      && var t := disks[2].record.value;
      && disks[2] == disks[1].(record := Some(t))
      && t.state.Prepared? && t.previous.version == running && t.previous.file == "known-good-" + running
      && Verifies(d.executable, t.previous.size, t.previous.digest)
      && t.targetVersion == m.version && t.targetDigest == m.digest && t.targetSize == m.size
      && t.startedAt == offer.now && t.healthDeadline == offer.now + m.healthTimeoutSeconds * SECOND
      && disks[3] == disks[2].(record := Some(t.(state := AwaitingHealth)))
      && disks[4] == disks[3].(executable := offer.artifact)
  {
    hide MatchesVersionPattern, IsUpgrade;
    PreparedValid(d, running, offer);
  }

  // ----- What is refused

  /** A record that cannot be read stops everything and stays as it is. */
  lemma UnusableRecordStops(d: Disk, running: string, now: int, offer: Option<Offer>, faults: set<Point>)
    ensures d.record.Some? && !d.record.value.Validate() ==>
      RecoverTrace(d, now, faults) == CheckInTrace(d, running, now, offer, faults) == Trace([], Failed)
  {
    hide MatchesVersionPattern, OfferTrace;
  }

  /** An offer with an invalid manifest is an error, one that is no upgrade is skipped; neither
      leaves anything on disk. */
  lemma OfferRefused(d: Disk, running: string, offer: Offer, faults: set<Point>)
    ensures !offer.manifest.Validate() ==> OfferTrace(d, running, offer, faults) == Trace([], Failed)
    ensures offer.manifest.Validate() && !IsUpgrade(running, offer.manifest.version) ==>
      OfferTrace(d, running, offer, faults) == Trace([], Done)
  {
    hide MatchesVersionPattern, IsUpgrade, InstallTrace;
  }
}
