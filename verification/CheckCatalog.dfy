/** internal/checkcatalog/catalog.go over the tables of internal/store/check_catalog.go:
    trusted publishers, imported check versions and the active version of each check. */
module CheckCatalog {
  import opened GoStrings
  import opened SemanticVersion

  const PUBLIC_KEY_SIZE := 32

  datatype CheckStatus = Staged | Active | Retired

  datatype Publisher = Publisher(name: string, publicKey: string, trusted: bool)

  /** A signed check, as far as the catalog looks at it. */
  datatype Envelope = Envelope(checkId: string, version: string, keyId: string, signature: string)

  datatype Entry = Entry(envelope: Envelope, status: CheckStatus)

  /** The table of check versions, keyed by check and version. */
  datatype Repository = Repository(publishers: map<string, Publisher>, entries: seq<Entry>)

  datatype Reply =
    | Done | PublisherRejected | PublisherNotTrusted | SignatureInvalid
    | VersionConflict | VersionNotFound | RollbackApprovalRequired

  predicate Names(entry: Entry, checkId: string, version: string) {
    entry.envelope.checkId == checkId && entry.envelope.version == version
  }

  function FindVersion(entries: seq<Entry>, checkId: string, version: string): (r: Option<Entry>)
    ensures r.Some? ==> r.value in entries && Names(r.value, checkId, version)
    ensures r.None? ==> forall e :: e in entries ==> !Names(e, checkId, version)
  {
    if entries == [] then None
    else
      assert entries == [entries[0]] + entries[1..];
      if Names(entries[0], checkId, version) then Some(entries[0]) else FindVersion(entries[1..], checkId, version)
  }

  predicate IsActive(entry: Entry, checkId: string) { entry.envelope.checkId == checkId && entry.status.Active? }

  function ActiveVersion(entries: seq<Entry>, checkId: string): (r: Option<string>)
    ensures r.None? ==> forall e :: e in entries ==> !IsActive(e, checkId)
    ensures r.Some? ==> exists e :: e in entries && IsActive(e, checkId) && e.envelope.version == r.value
  {
    if entries == [] then None
    else
      assert entries == [entries[0]] + entries[1..];
      if IsActive(entries[0], checkId) then Some(entries[0].envelope.version) else ActiveVersion(entries[1..], checkId)
  }

  predicate Trusted(repo: Repository, keyId: string) {
    keyId in repo.publishers && repo.publishers[keyId].trusted
  }

  /** `ActivateVersion`: retire the active version of the check and activate the other. */
  function Activated(entries: seq<Entry>, checkId: string, version: string): seq<Entry> {
    seq(|entries|, i requires 0 <= i < |entries| =>
      if Names(entries[i], checkId, version) then entries[i].(status := Active)
      else if IsActive(entries[i], checkId) then entries[i].(status := Retired)
      else entries[i])
  }

  // ----- The operations

  /** `verifies` is the verdict on the envelope's signature and content. */
  datatype Op =
    | TrustPublisher(keyId: string, name: string, publicKey: string)
    | RevokePublisher(keyId: string)
    | Import(envelope: Envelope, verifies: bool)
    | Activate(checkId: string, version: string, allowRollback: bool)

  datatype Effect = Effect(repo: Repository, reply: Reply)

  function Trust(repo: Repository, keyId: string, name: string, publicKey: string): Effect {
    if IsBlank(name) || |publicKey| != PUBLIC_KEY_SIZE then Effect(repo, PublisherRejected)
    else if keyId in repo.publishers && repo.publishers[keyId].publicKey != publicKey then Effect(repo, PublisherRejected)
    else Effect(repo.(publishers := repo.publishers[keyId := Publisher(TrimSpace(name), publicKey, true)]), Done)
  }

  function Revoke(repo: Repository, keyId: string): Effect {
    if keyId !in repo.publishers then Effect(repo, PublisherNotTrusted)
    else Effect(repo.(publishers := repo.publishers[keyId := repo.publishers[keyId].(trusted := false)]), Done)
  }

  function ImportEnvelope(repo: Repository, envelope: Envelope, verifies: bool): Effect {
    if !Trusted(repo, envelope.keyId) then Effect(repo, PublisherNotTrusted)
    else if !verifies then Effect(repo, SignatureInvalid)
    else
      match FindVersion(repo.entries, envelope.checkId, envelope.version)
      case Some(existing) =>
        var same := existing.envelope.signature == envelope.signature && existing.envelope.keyId == envelope.keyId;
        Effect(repo, if same then Done else VersionConflict)
      case None => Effect(repo.(entries := repo.entries + [Entry(envelope, Staged)]), Done)
  }

  /** Versions in the table have three core parts. */
  predicate Comparable(entries: seq<Entry>) {
    forall e :: e in entries ==> |CoreParts(e.envelope.version)| >= 3
  }

  function ActivateCheck(repo: Repository, checkId: string, version: string, allowRollback: bool): Effect
    requires Comparable(repo.entries)
  {
    var candidate, active := FindVersion(repo.entries, checkId, version), ActiveVersion(repo.entries, checkId);
    if candidate.None? then Effect(repo, VersionNotFound)
    else if !Trusted(repo, candidate.value.envelope.keyId) then Effect(repo, PublisherNotTrusted)
    else if active.Some? && CompareVersions(version, active.value) < 0 && !allowRollback then
      Effect(repo, RollbackApprovalRequired)
    else Effect(repo.(entries := Activated(repo.entries, checkId, version)), Done)
  }

  function Apply(repo: Repository, op: Op): Effect
    requires Comparable(repo.entries)
  {
    match op
    case TrustPublisher(keyId, name, publicKey) => Trust(repo, keyId, name, publicKey)
    case RevokePublisher(keyId) => Revoke(repo, keyId)
    case Import(envelope, verifies) => ImportEnvelope(repo, envelope, verifies)
    case Activate(checkId, version, allowRollback) => ActivateCheck(repo, checkId, version, allowRollback)
  }

  // ----- What every operation keeps

  predicate UniqueEntries(entries: seq<Entry>) {
    forall i, j :: 0 <= i < j < |entries| ==> !Names(entries[j], entries[i].envelope.checkId, entries[i].envelope.version)
  }

  predicate OneActive(entries: seq<Entry>) {
    forall i, j :: 0 <= i < j < |entries| && entries[i].status.Active? && entries[j].status.Active? ==>
      entries[i].envelope.checkId != entries[j].envelope.checkId
  }

  predicate AllMatch(entries: seq<Entry>) {
    forall i :: 0 <= i < |entries| ==> MatchesPattern(entries[i].envelope.version)
  }

  predicate FullKeys(publishers: map<string, Publisher>) {
    forall id :: id in publishers ==> |publishers[id].publicKey| == PUBLIC_KEY_SIZE
  }

  predicate Valid(repo: Repository) {
    UniqueEntries(repo.entries) && OneActive(repo.entries) && AllMatch(repo.entries) && FullKeys(repo.publishers)
  }

  predicate IsIdentifierByte(c: char) { 'a' <= c <= 'z' || IsDigit(c) }

  predicate IsSeparator(c: char) { c == '.' || c == '_' || c == '-' }

  /** The identifier pattern of internal/checkdefinition/format.go: words with a separator
      between any two, at least two of them, the first starting with a letter. */
  predicate IsNamespaced(id: string) {
    && |id| >= 3 && 'a' <= id[0] <= 'z' && IsIdentifierByte(id[|id| - 1])
    && (forall i :: 0 <= i < |id| ==> IsIdentifierByte(id[i]) || IsSeparator(id[i]))
    && (forall i :: 1 <= i < |id| ==> !(IsSeparator(id[i - 1]) && IsSeparator(id[i])))
    && exists i :: 0 <= i < |id| && IsSeparator(id[i])
  }

  /** The patterns are part of what verification of an envelope checks. */
  predicate VerifiedOp(op: Op) {
    op.Import? && op.verifies ==>
      MatchesPattern(op.envelope.version) && IsNamespaced(op.envelope.checkId) && IsNamespaced(op.envelope.keyId)
  }

  lemma MatchesHasCore(version: string)
    requires MatchesPattern(version)
    ensures |CoreParts(version)| >= 3
  {
    hide CoreParts, IsCoreNumber, IdentifierBytes;
  }

  lemma MatchComparable(entries: seq<Entry>)
    requires AllMatch(entries)
    ensures Comparable(entries)
  {
    hide CoreParts, MatchesPattern;
    forall e | e in entries
      ensures |CoreParts(e.envelope.version)| >= 3
    {
      var i :| 0 <= i < |entries| && entries[i] == e;
      MatchesHasCore(e.envelope.version);
    }
  }

  lemma ActivatedKeepsRows(entries: seq<Entry>, checkId: string, version: string)
    requires UniqueEntries(entries) && OneActive(entries) && AllMatch(entries)
    ensures UniqueEntries(Activated(entries, checkId, version)) && OneActive(Activated(entries, checkId, version))
    ensures AllMatch(Activated(entries, checkId, version))
  {
    hide MatchesPattern;
  }

  lemma ImportedKeepsRows(entries: seq<Entry>, envelope: Envelope)
    requires UniqueEntries(entries) && OneActive(entries) && AllMatch(entries) && MatchesPattern(envelope.version)
    requires FindVersion(entries, envelope.checkId, envelope.version).None?
    ensures var after := entries + [Entry(envelope, Staged)]; UniqueEntries(after) && OneActive(after) && AllMatch(after)
  {
    hide MatchesPattern, FindVersion;
    forall i | 0 <= i < |entries|
      ensures !Names(entries[i], envelope.checkId, envelope.version)
    {
      assert entries[i] in entries;
    }
  }

  lemma ApplyKeepsValid(repo: Repository, op: Op)
    requires Valid(repo) && Comparable(repo.entries) && VerifiedOp(op)
    ensures Valid(Apply(repo, op).repo)
  {
    hide MatchesPattern, CompareVersions, CoreParts, IsBlank, FindVersion, ActiveVersion, Activated;
    hide UniqueEntries, OneActive, AllMatch, IsNamespaced;
    match op
    case TrustPublisher(_, _, _) =>
    case RevokePublisher(_) =>
    case Import(envelope, verifies) =>
      if verifies && FindVersion(repo.entries, envelope.checkId, envelope.version).None? {
        ImportedKeepsRows(repo.entries, envelope);
      }
    case Activate(checkId, version, _) => ActivatedKeepsRows(repo.entries, checkId, version);
  }

  lemma {:induction false} OtherChecksUntouched(before: seq<Entry>, after: seq<Entry>, checkId: string)
    requires |before| == |after|
    requires forall i :: 0 <= i < |before| ==>
      before[i].envelope == after[i].envelope && (before[i].envelope.checkId == checkId ==> before[i] == after[i])
    ensures ActiveVersion(before, checkId) == ActiveVersion(after, checkId)
  {
    if before == [] {
    } else {
      OtherChecksUntouched(before[1..], after[1..], checkId);
    }
  }

  /** After an activation, that version is the active one, and the only one. */
  lemma ActivationTakesEffect(entries: seq<Entry>, checkId: string, version: string)
    requires UniqueEntries(entries) && FindVersion(entries, checkId, version).Some?
    ensures ActiveVersion(Activated(entries, checkId, version), checkId) == Some(version)
    ensures forall other :: other != checkId ==>
      ActiveVersion(Activated(entries, checkId, version), other) == ActiveVersion(entries, other)
  {
    var after := Activated(entries, checkId, version);
    var e := FindVersion(entries, checkId, version).value;
    var i :| 0 <= i < |entries| && entries[i] == e;
    assert after[i] in after && IsActive(after[i], checkId);
    forall other | other != checkId
      ensures ActiveVersion(after, other) == ActiveVersion(entries, other)
    {
      OtherChecksUntouched(entries, after, other);
    }
  }

  lemma {:induction false} AppendStaged(entries: seq<Entry>, entry: Entry, checkId: string)
    requires !entry.status.Active?
    ensures ActiveVersion(entries + [entry], checkId) == ActiveVersion(entries, checkId)
  {
    if entries == [] {
    } else {
      assert (entries + [entry])[1..] == entries[1..] + [entry];
      AppendStaged(entries[1..], entry, checkId);
    }
  }

  /** The version was imported from a publisher that is trusted now. */
  predicate TrustedVersion(repo: Repository, checkId: string, version: string) {
    exists e :: e in repo.entries && Names(e, checkId, version) && Trusted(repo, e.envelope.keyId)
  }

  /** The active version after a step is at least as high as the one before, which is not lost. */
  predicate NotLowered(before: Option<string>, after: Option<string>) {
    before.Some? ==>
      && after.Some? && |CoreParts(before.value)| >= 3 && |CoreParts(after.value)| >= 3
      && CompareVersions(before.value, after.value) <= 0
  }

  /** The operation asks for a trusted version of the check that clashes with the active one. */
  predicate ActivatesClash(repo: Repository, op: Op, checkId: string) {
    && op.Activate? && op.checkId == checkId && TrustedVersion(repo, checkId, op.version)
    && ActiveVersion(repo.entries, checkId).Some?
    && VersionsClash(ActiveVersion(repo.entries, checkId).value, op.version)
  }

  /** Imported checks are immutable: no operation changes or removes an envelope, and only an
      import from a trusted publisher adds one. */
  lemma EnvelopesImmutable(repo: Repository, op: Op)
    requires Comparable(repo.entries)
    ensures var before, after := repo.entries, Apply(repo, op).repo.entries;
      && |before| <= |after| <= |before| + 1
      && (forall i :: 0 <= i < |before| ==> after[i].envelope == before[i].envelope)
      && (|after| > |before| ==> op.Import? && op.verifies && Trusted(repo, op.envelope.keyId)
                                 && after[|before|] == Entry(op.envelope, Staged))
  {
    hide CompareVersions, CoreParts, IsBlank;
  }

  lemma SameEntry(entries: seq<Entry>, checkId: string, version: string)
    requires UniqueEntries(entries) && FindVersion(entries, checkId, version).Some?
    ensures forall e :: e in entries && Names(e, checkId, version) ==> e == FindVersion(entries, checkId, version).value
  {
    var found := FindVersion(entries, checkId, version).value;
    var i :| 0 <= i < |entries| && entries[i] == found;
    forall e | e in entries && Names(e, checkId, version)
      ensures e == found
    {
      var j :| 0 <= j < |entries| && entries[j] == e;
    }
  }

  /** What an import answers: the publisher must be trusted and the envelope verify; then the
      same envelope again is accepted without effect, another one under the same name is a
      conflict, and a new one is staged. */
  lemma ImportRule(repo: Repository, envelope: Envelope, verifies: bool)
    requires UniqueEntries(repo.entries)
    ensures var effect := ImportEnvelope(repo, envelope, verifies);
      && var known := exists e :: e in repo.entries && Names(e, envelope.checkId, envelope.version);
      && var same := exists e :: e in repo.entries && Names(e, envelope.checkId, envelope.version)
                                 && e.envelope.signature == envelope.signature && e.envelope.keyId == envelope.keyId;
      && (effect.reply.PublisherNotTrusted? <==> !Trusted(repo, envelope.keyId))
      && (effect.reply.SignatureInvalid? <==> Trusted(repo, envelope.keyId) && !verifies)
      && (effect.reply.VersionConflict? <==> Trusted(repo, envelope.keyId) && verifies && known && !same)
      && (effect.reply.Done? <==> Trusted(repo, envelope.keyId) && verifies && (known ==> same))
      && effect.repo == if effect.reply.Done? && !known then repo.(entries := repo.entries + [Entry(envelope, Staged)]) else repo
  {
    hide FindVersion, UniqueEntries;
    if FindVersion(repo.entries, envelope.checkId, envelope.version).Some? {
      SameEntry(repo.entries, envelope.checkId, envelope.version);
    }
  }

  /** An activation retires the version that was active and leaves every other row alone. */
  lemma ActivationRetires(entries: seq<Entry>, checkId: string, version: string, i: nat)
    requires i < |entries|
    ensures var before, after := entries[i], Activated(entries, checkId, version)[i];
      && after.envelope == before.envelope
      && (Names(before, checkId, version) ==> after.status.Active?)
      && (!Names(before, checkId, version) && before.envelope.checkId == checkId && before.status.Active? ==>
            after.status.Retired?)
      && (before.envelope.checkId != checkId || (before.envelope.version != version && !before.status.Active?) ==>
            after == before)
  {
  }

  /** A version becomes active exactly when its publisher is trusted at that time and it is
      not reported lower than the active one, unless a rollback is approved. */
  lemma ActivationRule(repo: Repository, checkId: string, version: string, allowRollback: bool)
    requires UniqueEntries(repo.entries) && Comparable(repo.entries)
    ensures var effect, active := ActivateCheck(repo, checkId, version, allowRollback), ActiveVersion(repo.entries, checkId);
      && (effect.reply.Done? <==>
            && TrustedVersion(repo, checkId, version) && |CoreParts(version)| >= 3
            && (active.None? || allowRollback || CompareVersions(version, active.value) >= 0))
      && (effect.reply.Done? ==> ActiveVersion(effect.repo.entries, checkId) == Some(version))
      && (!effect.reply.Done? ==> effect.repo == repo)
  {
    hide MatchesPattern, CompareVersions, CoreParts, ActiveVersion, Activated, UniqueEntries;
    var candidate, active := FindVersion(repo.entries, checkId, version), ActiveVersion(repo.entries, checkId);
    if candidate.Some? {
      ActivationTakesEffect(repo.entries, checkId, version);
      SameEntry(repo.entries, checkId, version);
    }
  }

  lemma NothingToLower(repo: Repository, op: Op, checkId: string)
    requires ActiveVersion(repo.entries, checkId).None?
    ensures !ActivatesClash(repo, op, checkId)
  {
    hide ActiveVersion, VersionsClash;
  }

  lemma TrustedHasCore(repo: Repository, checkId: string, version: string)
    requires Comparable(repo.entries) && TrustedVersion(repo, checkId, version)
    ensures |CoreParts(version)| >= 3
  {
    hide CoreParts;
  }

  lemma UnapprovedStep(repo: Repository, op: Op, checkId: string)
    requires UniqueEntries(repo.entries) && Comparable(repo.entries) && !(op.Activate? && op.allowRollback)
    requires ActiveVersion(repo.entries, checkId).Some?
    ensures NotLowered(ActiveVersion(repo.entries, checkId), ActiveVersion(Apply(repo, op).repo.entries, checkId))
      <==> !ActivatesClash(repo, op, checkId)
  {
    hide CompareVersions, VersionsClash, CoreParts, IsBlank, FindVersion, ActiveVersion, Activated, TrustedVersion, UniqueEntries;
    var active := ActiveVersion(repo.entries, checkId).value;
    ComparisonIsPreorder(active, active, active);
    match op
    case TrustPublisher(_, _, _) =>
    case RevokePublisher(_) =>
    case Import(envelope, verifies) => AppendStaged(repo.entries, Entry(envelope, Staged), checkId);
    case Activate(id, version, _) =>
      ActivationRule(repo, id, version, false);
      if id == checkId && TrustedVersion(repo, checkId, version) {
        TrustedHasCore(repo, checkId, version);
        AntisymmetryIff(active, version);
      } else if Apply(repo, op).reply.Done? {
        ActivationTakesEffect(repo.entries, id, version);
      }
  }

  /** One operation without rollback approval lowers the active version of a check exactly
      when it activates a version that clashes with it. */
  lemma StepNeverLowers(repo: Repository, op: Op, checkId: string)
    requires Comparable(repo.entries)
    ensures var before, after := ActiveVersion(repo.entries, checkId), ActiveVersion(Apply(repo, op).repo.entries, checkId);
      UniqueEntries(repo.entries) && !(op.Activate? && op.allowRollback) ==>
        (NotLowered(before, after) <==> !ActivatesClash(repo, op, checkId))
  {
    hide CompareVersions, VersionsClash, CoreParts, ActiveVersion, Apply, ActivatesClash, UniqueEntries;
    if UniqueEntries(repo.entries) && !(op.Activate? && op.allowRollback) && ActiveVersion(repo.entries, checkId).Some? {
      UnapprovedStep(repo, op, checkId);
    } else if ActiveVersion(repo.entries, checkId).None? {
      NothingToLower(repo, op, checkId);
    }
  }

  /** The operation is a well-formed request to trust the key, and no other key has its name. */
  predicate Trusts(repo: Repository, op: Op, keyId: string) {
    && op.TrustPublisher? && op.keyId == keyId
    && !IsBlank(op.name) && |op.publicKey| == PUBLIC_KEY_SIZE
    && (keyId in repo.publishers ==> repo.publishers[keyId].publicKey == op.publicKey)
  }

  // ----- The service

  class Service {
    var repo: Repository

    constructor ()
      ensures repo == Repository(map[], []) && Valid(repo)
    {
      repo := Repository(map[], []);
    }

    method TrustPublisher(keyId: string, name: string, publicKey: string) returns (reply: Reply)
      modifies this
      ensures Effect(repo, reply) == Trust(old(repo), keyId, name, publicKey)
      ensures forall id :: id in old(repo.publishers) ==>
        && id in repo.publishers && repo.publishers[id].publicKey == old(repo.publishers)[id].publicKey
        && (id != keyId ==> repo.publishers[id] == old(repo.publishers)[id])
      ensures if Trusts(old(repo), Op.TrustPublisher(keyId, name, publicKey), keyId)
              then reply.Done? && Trusted(repo, keyId) else reply.PublisherRejected? && repo == old(repo)
    {
      hide IsBlank, TrimSpace;
      if IsBlank(name) || |publicKey| != PUBLIC_KEY_SIZE {
        return PublisherRejected;
      }
      if keyId in repo.publishers && repo.publishers[keyId].publicKey != publicKey {
        return PublisherRejected;
      }
      repo := repo.(publishers := repo.publishers[keyId := Publisher(TrimSpace(name), publicKey, true)]);
      return Done;
    }

    method RevokePublisher(keyId: string) returns (reply: Reply)
      modifies this
      ensures Effect(repo, reply) == Revoke(old(repo), keyId)
      ensures !Trusted(repo, keyId) && repo.entries == old(repo.entries)
      ensures forall id :: id in old(repo.publishers) ==>
        && id in repo.publishers && repo.publishers[id].publicKey == old(repo.publishers)[id].publicKey
        && (id != keyId ==> repo.publishers[id] == old(repo.publishers)[id])
    {
      if keyId !in repo.publishers {
        return PublisherNotTrusted;
      }
      repo := repo.(publishers := repo.publishers[keyId := repo.publishers[keyId].(trusted := false)]);
      return Done;
    }

    method Import(envelope: Envelope, verifies: bool) returns (reply: Reply)
      modifies this
      ensures Effect(repo, reply) == ImportEnvelope(old(repo), envelope, verifies)
    {
      if !Trusted(repo, envelope.keyId) {
        return PublisherNotTrusted;
      }
      if !verifies {
        return SignatureInvalid;
      }
      var existing := FindVersion(repo.entries, envelope.checkId, envelope.version);
      if existing.Some? {
        if existing.value.envelope.signature == envelope.signature && existing.value.envelope.keyId == envelope.keyId {
          return Done;
        }
        return VersionConflict;
      }
      repo := repo.(entries := repo.entries + [Entry(envelope, Staged)]);
      return Done;
    }

    method Activate(checkId: string, version: string, allowRollback: bool) returns (reply: Reply)
      requires Comparable(repo.entries)
      modifies this
      ensures Effect(repo, reply) == ActivateCheck(old(repo), checkId, version, allowRollback)
    {
      hide CoreParts, CompareVersions;
      var candidate := FindVersion(repo.entries, checkId, version);
      if candidate.None? {
        return VersionNotFound;
      }
      if !Trusted(repo, candidate.value.envelope.keyId) {
        return PublisherNotTrusted;
      }
      var active := ActiveVersion(repo.entries, checkId);
      if active.Some? {
        var order := ComputeCompareVersions(version, active.value);
        if order < 0 && !allowRollback {
          return RollbackApprovalRequired;
        }
      }
      repo := repo.(entries := Activated(repo.entries, checkId, version));
      return Done;
    }
  }
}
