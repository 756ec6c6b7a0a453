/** The endpoint agent's self-update on Unix: internal/agentupdate/transaction.go,
    activate_unix.go, recover_unix.go and internal/agentapp/update.go.

    A disk is the installed executable, the transaction record, the known-good copies and
    the staged candidates. Every file is replaced by an atomic rename, so an operation is
    the sequence of disks it leaves behind, and a crash stops that sequence anywhere. */
module AgentUpdate {
  import opened GoStrings
  import opened GoTime
  import opened AgentVersion

  const MAXIMUM_ARTIFACT_BYTES := 256 * 1024 * 1024
  const MINIMUM_HEALTH_TIMEOUT := 30
  const MAXIMUM_HEALTH_TIMEOUT := 600

  /** An executable; `version` is the Version constant linked into it. */
  datatype Image = Image(version: string, content: string)

  /** SHA-256, taken to be collision free. */
  datatype Digest = Sha256(image: Image)

  datatype KnownGood = KnownGood(version: string, digest: Digest, size: int, file: string)

  datatype TransactionState = Prepared | AwaitingHealth | Committed | RollbackRequired | RolledBack

  /** `filepath.Base(name) == name`. */
  predicate IsBaseName(name: string) { name == "/" || (name != "" && '/' !in name) }

  datatype Transaction = Transaction(
    state: TransactionState,
    previous: KnownGood,
    targetVersion: string,
    targetDigest: Digest,
    targetSize: int,
    startedAt: int,
    healthDeadline: int)
  {
    predicate Validate() {
      && MatchesVersionPattern(previous.version)
      && MatchesVersionPattern(targetVersion)
      && IsBaseName(previous.file)
      && 1 <= previous.size <= MAXIMUM_ARTIFACT_BYTES
      && 1 <= targetSize <= MAXIMUM_ARTIFACT_BYTES
      && startedAt < healthDeadline <= startedAt + MAXIMUM_HEALTH_TIMEOUT * SECOND
    }

    predicate RequiresRollback(now: int) {
      state.RollbackRequired? || (state.AwaitingHealth? && now >= healthDeadline)
    }
  }

  datatype Manifest = Manifest(version: string, digest: Digest, size: int, healthTimeoutSeconds: int)
  {
    /** The checks of `Manifest.Validate` that the transaction depends on. */
    predicate Validate() {
      && MatchesVersionPattern(version)
      && 1 <= size <= MAXIMUM_ARTIFACT_BYTES
      && MINIMUM_HEALTH_TIMEOUT <= healthTimeoutSeconds <= MAXIMUM_HEALTH_TIMEOUT
    }
  }

  datatype Disk = Disk(
    executable: Image,
    record: Option<Transaction>,
    knownGood: map<string, Image>,
    candidates: map<string, Image>)

  function KnownGoodName(version: string): string { "known-good-" + version }

  /** `copyVerifiedCandidate`: the bytes copied have the recorded size and digest. */
  predicate Verifies(image: Image, size: int, digest: Digest) {
    |image.content| == size && Sha256(image) == digest
  }

  function NewTransaction(previous: KnownGood, manifest: Manifest, now: int): Transaction {
    Transaction(Prepared, previous, manifest.version, manifest.digest, manifest.size, now,
                now + manifest.healthTimeoutSeconds * SECOND)
  }

  datatype Loaded = Missing | Unusable | Found(transaction: Transaction)

  function Load(d: Disk): Loaded {
    if d.record.None? then Missing
    else if !d.record.value.Validate() then Unusable
    else Found(d.record.value)
  }

  /** The input and output operations that can fail on their own. A failing rename or
      save has no effect; a failing directory sync comes after the rename took effect. */
  datatype Point =
    | PreserveCopy | StageCopy | SavePrepared | ActivateCopy | SaveAwaiting | ActivateRename | ActivateSync
    | ConfirmSave
    | RollbackCopy | SaveRollback | RollbackRename | RollbackSync | SaveRolledBack

  datatype Outcome = Done | Failed | RestartRequired

  /** What an operation does: each disk it leaves behind in turn, and its result. */
  datatype Trace = Trace(disks: seq<Disk>, outcome: Outcome)

  /** The disk after the first `n` durable steps of a trace started on `d`. */
  function After(d: Disk, trace: Trace, n: nat): Disk
    requires n <= |trace.disks|
  {
    if n == 0 then d else trace.disks[n - 1]
  }

  function Last(d: Disk, trace: Trace): Disk { After(d, trace, |trace.disks|) }

  function WithState(d: Disk, t: Transaction, state: TransactionState): Disk {
    d.(record := Some(t.(state := state)))
  }

  // ----- The operations as traces

  /** Restore the known-good copy: save the intent, rename, save the completion. */
  function RollbackTrace(d: Disk, t: Transaction, knownGood: Image, faults: set<Point>): Trace {
    if SaveRollback in faults then Trace([], Failed)
    else
      var marked := WithState(d, t, RollbackRequired);
      var restored := marked.(executable := knownGood);
      if RollbackRename in faults then Trace([marked], Failed)
      else if RollbackSync in faults || SaveRolledBack in faults then Trace([marked, restored], Failed)
      else Trace([marked, restored, WithState(restored, t, RolledBack)], RestartRequired)
  }

  function RecoverTrace(d: Disk, now: int, faults: set<Point>): Trace {
    match Load(d)
    case Missing => Trace([], Done)
    case Unusable => Trace([], Failed)
    case Found(t) =>
      if !t.RequiresRollback(now) then Trace([], Done)
      else if RollbackCopy in faults || t.previous.file !in d.knownGood
           || !Verifies(d.knownGood[t.previous.file], t.previous.size, t.previous.digest) then Trace([], Failed)
      else RollbackTrace(d, t, d.knownGood[t.previous.file], faults)
  }

  function ConfirmTrace(d: Disk, running: string, now: int, faults: set<Point>): Trace {
    match Load(d)
    case Missing => Trace([], Done)
    case Unusable => Trace([], Failed)
    case Found(t) =>
      if !t.state.AwaitingHealth? then Trace([], Done)
      else if t.targetVersion != running then Trace([], Failed)
      else if now >= t.healthDeadline then
        Trace(if ConfirmSave in faults then [] else [WithState(d, t, RollbackRequired)], Failed)
      else if ConfirmSave in faults then Trace([], Failed)
      else Trace([WithState(d, t, Committed)], Done)
  }

  function ActivateTrace(d: Disk, t: Transaction, faults: set<Point>): Trace {
    if !t.state.Prepared? || t.targetVersion !in d.candidates
       || !Verifies(d.candidates[t.targetVersion], t.targetSize, t.targetDigest)
       || ActivateCopy in faults || !t.Validate() || SaveAwaiting in faults then Trace([], Failed)
    else
      var awaiting := WithState(d, t, AwaitingHealth);
      var renamed := awaiting.(executable := d.candidates[t.targetVersion]);
      if ActivateRename in faults then Trace([awaiting], Failed)
      else Trace([awaiting, renamed], if ActivateSync in faults then Failed else RestartRequired)
  }

  /** A signed manifest for this platform, what its URL serves, and the time it is handled. */
  datatype Offer = Offer(manifest: Manifest, artifact: Image, now: int)

  function Preserved(d: Disk, running: string): Disk {
    d.(knownGood := d.knownGood[KnownGoodName(running) := d.executable])
  }

  function Prepare(d: Disk, running: string, offer: Offer): Transaction {
    NewTransaction(KnownGood(running, Sha256(d.executable), |d.executable.content|, KnownGoodName(running)),
                   offer.manifest, offer.now)
  }

  predicate CanPreserve(d: Disk, running: string, faults: set<Point>) {
    && 1 <= |d.executable.content| <= MAXIMUM_ARTIFACT_BYTES
    && KnownGoodName(running) !in d.knownGood
    && PreserveCopy !in faults
  }

  predicate CanStage(d: Disk, offer: Offer, faults: set<Point>) {
    && Verifies(offer.artifact, offer.manifest.size, offer.manifest.digest)
    && offer.manifest.version !in d.candidates
    && StageCopy !in faults
  }

  /** Stage the artifact, save the prepared transaction, activate it. */
  function InstallTrace(d: Disk, t: Transaction, offer: Offer, faults: set<Point>): Trace {
    if !CanStage(d, offer, faults) then Trace([], Failed)
    else
      var staged := d.(candidates := d.candidates[offer.manifest.version := offer.artifact]);
      if !t.Validate() || SavePrepared in faults then Trace([staged], Failed)
      else
        var prepared := staged.(record := Some(t));
        var rest := ActivateTrace(prepared, t, faults);
        Trace([staged, prepared] + rest.disks, rest.outcome)
  }

  function OfferTrace(d: Disk, running: string, offer: Offer, faults: set<Point>): Trace {
    if !offer.manifest.Validate() then Trace([], Failed)
    else if !IsUpgrade(running, offer.manifest.version) then Trace([], Done)
    else if !CanPreserve(d, running, faults) then Trace([], Failed)
    else
      var rest := InstallTrace(Preserved(d, running), Prepare(d, running, offer), offer, faults);
      Trace([Preserved(d, running)] + rest.disks, rest.outcome)
  }

  /** The update part of `checkIn`: confirm health, then handle the offer, if any. */
  function CheckInTrace(d: Disk, running: string, confirmAt: int, offer: Option<Offer>, faults: set<Point>): Trace {
    var confirm := ConfirmTrace(d, running, confirmAt, faults);
    if !confirm.outcome.Done? || offer.None? then confirm
    else
      var rest := OfferTrace(Last(d, confirm), running, offer.value, faults);
      Trace(confirm.disks + rest.disks, rest.outcome)
  }

  // ----- The operations as the agent performs them

  /** The update state of one machine. `writes` lists every disk since the beginning. */
  class Installation {
    var disk: Disk
    ghost var writes: seq<Disk>

    constructor (initial: Disk)
      ensures disk == initial && writes == []
    {
      disk, writes := initial, [];
    }

    method Write(d: Disk)
      modifies this
      ensures disk == d && writes == old(writes) + [d]
    {
      disk, writes := d, writes + [d];
    }

    method Save(t: Transaction, fails: bool) returns (ok: bool)
      modifies this
      ensures ok == (t.Validate() && !fails)
      ensures disk == if ok then old(disk).(record := Some(t)) else old(disk)
      ensures writes == if ok then old(writes) + [disk] else old(writes)
    {
      ok := t.Validate() && !fails;
      if ok {
        Write(disk.(record := Some(t)));
      }
    }

    method Recover(now: int, faults: set<Point>) returns (outcome: Outcome)
      modifies this
      ensures var trace := RecoverTrace(old(disk), now, faults);
        outcome == trace.outcome && writes == old(writes) + trace.disks && disk == Last(old(disk), trace)
    {
      hide MatchesVersionPattern;
      var loaded := Load(disk);
      if loaded.Missing? {
        return Done;
      }
      if loaded.Unusable? {
        return Failed;
      }
      var t := loaded.transaction;
      if !t.RequiresRollback(now) {
        return Done;
      }
      if RollbackCopy in faults || t.previous.file !in disk.knownGood {
        return Failed;
      }
      var staged := disk.knownGood[t.previous.file];
      if !Verifies(staged, t.previous.size, t.previous.digest) {
        return Failed;
      }
      outcome := RollBack(t, staged, faults);
    }

    /** The durable half of `Recover`, once the known-good copy is verified. */
    method RollBack(transaction: Transaction, staged: Image, faults: set<Point>) returns (outcome: Outcome)
      requires transaction.Validate()
      modifies this
      ensures var trace := RollbackTrace(old(disk), transaction, staged, faults);
        outcome == trace.outcome && writes == old(writes) + trace.disks && disk == Last(old(disk), trace)
    {
      hide MatchesVersionPattern;
      var t := transaction.(state := RollbackRequired);
      var saved := Save(t, SaveRollback in faults);
      if !saved || RollbackRename in faults {
        return Failed;
      }
      Write(disk.(executable := staged));
      if RollbackSync in faults {
        return Failed;
      }
      t := t.(state := RolledBack);
      saved := Save(t, SaveRolledBack in faults);
      return if saved then RestartRequired else Failed;
    }

    method ConfirmHealthy(running: string, now: int, faults: set<Point>) returns (outcome: Outcome)
      modifies this
      ensures var trace := ConfirmTrace(old(disk), running, now, faults);
        outcome == trace.outcome && writes == old(writes) + trace.disks && disk == Last(old(disk), trace)
    {
      hide MatchesVersionPattern;
      var loaded := Load(disk);
      if loaded.Missing? {
        return Done;
      }
      if loaded.Unusable? {
        return Failed;
      }
      var t := loaded.transaction;
      if !t.state.AwaitingHealth? {
        return Done;
      }
      if t.targetVersion != running {
        return Failed;
      }
      if now >= t.healthDeadline {
        t := t.(state := RollbackRequired);
        var _ := Save(t, ConfirmSave in faults);
        return Failed;
      }
      t := t.(state := Committed);
      var saved := Save(t, ConfirmSave in faults);
      return if saved then Done else Failed;
    }

    method Activate(transaction: Transaction, faults: set<Point>) returns (outcome: Outcome)
      modifies this
      ensures var trace := ActivateTrace(old(disk), transaction, faults);
        outcome == trace.outcome && writes == old(writes) + trace.disks && disk == Last(old(disk), trace)
    {
      hide MatchesVersionPattern;
      var t := transaction;
      if !t.state.Prepared? || t.targetVersion !in disk.candidates {
        return Failed;
      }
      var staged := disk.candidates[t.targetVersion];
      if !Verifies(staged, t.targetSize, t.targetDigest) || ActivateCopy in faults {
        return Failed;
      }
      t := t.(state := AwaitingHealth);
      var saved := Save(t, SaveAwaiting in faults);
      if !saved {
        return Failed;
      }
      if ActivateRename in faults {
        return Failed;
      }
      Write(disk.(executable := staged));
      return if ActivateSync in faults then Failed else RestartRequired;
    }

    method ApplyUpdateOffer(running: string, offer: Offer, faults: set<Point>) returns (outcome: Outcome)
      modifies this
      ensures var trace := OfferTrace(old(disk), running, offer, faults);
        outcome == trace.outcome && writes == old(writes) + trace.disks && disk == Last(old(disk), trace)
    {
      hide IsUpgrade, MatchesVersionPattern;
      if !offer.manifest.Validate() {
        return Failed;
      }
      var upgrade := ComputeIsUpgrade(running, offer.manifest.version);
      if !upgrade {
        return Done;
      }
      if !CanPreserve(disk, running, faults) {
        return Failed;
      }
      var previous := KnownGood(running, Sha256(disk.executable), |disk.executable.content|, KnownGoodName(running));
      Write(Preserved(disk, running));
      outcome := Install(NewTransaction(previous, offer.manifest, offer.now), offer, faults);
    }

    /** The rest of `applyUpdateOffer`, once the running executable is preserved. */
    method Install(t: Transaction, offer: Offer, faults: set<Point>) returns (outcome: Outcome)
      modifies this
      ensures var trace := InstallTrace(old(disk), t, offer, faults);
        outcome == trace.outcome && writes == old(writes) + trace.disks && disk == Last(old(disk), trace)
    {
      hide MatchesVersionPattern;
      if !CanStage(disk, offer, faults) {
        return Failed;
      }
      Write(disk.(candidates := disk.candidates[offer.manifest.version := offer.artifact]));
      var saved := Save(t, SavePrepared in faults);
      if !saved {
        return Failed;
      }
      outcome := Activate(t, faults);
    }
  }
}
