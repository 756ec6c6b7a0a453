/** What the check catalog guarantees over every run of its operations: when the active
    version of a check can be lowered, and what trusting and revoking a publisher mean. */
module CheckCatalogRuns {
  import opened GoStrings
  import opened SemanticVersion
  import opened CheckCatalog

  predicate VerifiedOps(ops: seq<Op>) { forall op :: op in ops ==> VerifiedOp(op) }

  predicate NoRollbackApproved(ops: seq<Op>) { forall op :: op in ops ==> !(op.Activate? && op.allowRollback) }

  function Run(repo: Repository, ops: seq<Op>): (r: Repository)
    requires Valid(repo) && VerifiedOps(ops)
    ensures Valid(r) && Comparable(r.entries)
  {
    MatchComparable(repo.entries);
    if ops == [] then repo
    else
      var n := |ops| - 1;
      var before := Run(repo, ops[..n]);
      assert VerifiedOp(ops[n]) by { assert ops[n] in ops; }
      ApplyKeepsValid(before, ops[n]);
      MatchComparable(Apply(before, ops[n]).repo.entries);
      Apply(before, ops[n]).repo
  }

  /** No activation of the run clashes with the version it replaces. */
  predicate NoClash(repo: Repository, ops: seq<Op>, checkId: string)
    requires Valid(repo) && VerifiedOps(ops)
  {
    forall n :: 0 <= n < |ops| ==> !ActivatesClash(Run(repo, ops[..n]), ops[n], checkId)
  }

  /** The active version of a check after the first `n` operations. */
  function ActiveAt(repo: Repository, ops: seq<Op>, checkId: string, n: nat): Option<string>
    requires Valid(repo) && VerifiedOps(ops) && n <= |ops|
  {
    ActiveVersion(Run(repo, ops[..n]).entries, checkId)
  }

  lemma RunStep(repo: Repository, ops: seq<Op>, n: nat)
    requires Valid(repo) && VerifiedOps(ops) && n < |ops|
    ensures Run(repo, ops[..n + 1]) == Apply(Run(repo, ops[..n]), ops[n]).repo
    ensures UniqueEntries(Run(repo, ops[..n]).entries)
  {
    hide Apply, VerifiedOp, UniqueEntries, OneActive, AllMatch, FullKeys, Comparable;
    assert ops[..n + 1][..n] == ops[..n];
  }

  lemma ActiveHasCore(repo: Repository, ops: seq<Op>, checkId: string, n: nat)
    requires Valid(repo) && VerifiedOps(ops) && n <= |ops|
    ensures var active := ActiveAt(repo, ops, checkId, n); active.Some? ==> |CoreParts(active.value)| >= 3
  {
    hide Run, Valid, VerifiedOp, CoreParts;
  }

  lemma NotLoweredTransitive(a: Option<string>, b: Option<string>, c: Option<string>)
    requires NotLowered(a, b) && NotLowered(b, c)
    ensures NotLowered(a, c)
  {
    hide CompareVersions, CoreParts;
    if a.Some? {
      ComparisonIsPreorder(a.value, b.value, c.value);
    }
  }

  lemma NotLoweredStep(repo: Repository, ops: seq<Op>, checkId: string, n: nat)
    requires Valid(repo) && VerifiedOps(ops) && n < |ops| && NoRollbackApproved(ops)
    ensures NotLowered(ActiveAt(repo, ops, checkId, n), ActiveAt(repo, ops, checkId, n + 1))
      <==> !ActivatesClash(Run(repo, ops[..n]), ops[n], checkId)
  {
    hide Run, Valid, VerifiedOp, NotLowered, Apply, ActiveVersion, ActivatesClash, UniqueEntries, CoreParts;
    assert ops[n] in ops;
    RunStep(repo, ops, n);
    StepNeverLowers(Run(repo, ops[..n]), ops[n], checkId);
  }

  lemma {:induction false} NotLoweredBetween(repo: Repository, ops: seq<Op>, checkId: string, i: nat, j: nat)
    requires Valid(repo) && VerifiedOps(ops) && i <= j <= |ops|
    requires NoRollbackApproved(ops) && NoClash(repo, ops, checkId)
    ensures NotLowered(ActiveAt(repo, ops, checkId, i), ActiveAt(repo, ops, checkId, j))
    decreases j - i
  {
    hide Run, Valid, VerifiedOp, CompareVersions, CoreParts, Apply, ActiveVersion, ActivatesClash, UniqueEntries, Comparable;
    if i == j {
      ActiveHasCore(repo, ops, checkId, i);
      if ActiveAt(repo, ops, checkId, i).Some? {
        var active := ActiveAt(repo, ops, checkId, i).value;
        ComparisonIsPreorder(active, active, active);
      }
    } else {
      NotLoweredBetween(repo, ops, checkId, i, j - 1);
      NotLoweredStep(repo, ops, checkId, j - 1);
      NotLoweredTransitive(ActiveAt(repo, ops, checkId, i), ActiveAt(repo, ops, checkId, j - 1), ActiveAt(repo, ops, checkId, j));
    }
  }

  /** Between any two points of the run the active version of the check is not lowered. */
  predicate NeverLowered(repo: Repository, ops: seq<Op>, checkId: string)
    requires Valid(repo) && VerifiedOps(ops)
  {
    forall i, j :: 0 <= i <= j <= |ops| ==> NotLowered(ActiveAt(repo, ops, checkId, i), ActiveAt(repo, ops, checkId, j))
  }

  /** In every run without rollback approvals, the active version is never lowered exactly
      when no activation clashes with the version it replaces. */
  lemma NeverLoweredIff(repo: Repository, ops: seq<Op>, checkId: string)
    requires Valid(repo) && VerifiedOps(ops)
    ensures NoRollbackApproved(ops) ==> (NeverLowered(repo, ops, checkId) <==> NoClash(repo, ops, checkId))
  {
    hide Run, Valid, VerifiedOp, NotLowered, ActiveAt, ActivatesClash, Comparable;
    if NoRollbackApproved(ops) && NoClash(repo, ops, checkId) {
      forall i, j | 0 <= i <= j <= |ops|
        ensures NotLowered(ActiveAt(repo, ops, checkId, i), ActiveAt(repo, ops, checkId, j))
      {
        NotLoweredBetween(repo, ops, checkId, i, j);
      }
    }
    if NoRollbackApproved(ops) && NeverLowered(repo, ops, checkId) {
      forall n | 0 <= n < |ops|
        ensures !ActivatesClash(Run(repo, ops[..n]), ops[n], checkId)
      {
        NotLoweredStep(repo, ops, checkId, n);
        assert NotLowered(ActiveAt(repo, ops, checkId, n), ActiveAt(repo, ops, checkId, n + 1));
      }
    }
  }

  // ----- When no activation can clash

  predicate AllOrdinary(entries: seq<Entry>) {
    forall i :: 0 <= i < |entries| ==> Ordinary(entries[i].envelope.version)
  }

  predicate OrdinaryImports(ops: seq<Op>) {
    forall op :: op in ops && op.Import? && op.verifies ==> Ordinary(op.envelope.version)
  }

  lemma {:induction false} RunStaysOrdinary(repo: Repository, ops: seq<Op>)
    requires Valid(repo) && VerifiedOps(ops) && AllOrdinary(repo.entries) && OrdinaryImports(ops)
    ensures AllOrdinary(Run(repo, ops).entries)
  {
    hide Ordinary, MatchesPattern, Apply, Valid, CoreParts;
    if ops == [] {
    } else {
      var n := |ops| - 1;
      assert ops[n] in ops;
      RunStaysOrdinary(repo, ops[..n]);
      EnvelopesImmutable(Run(repo, ops[..n]), ops[n]);
    }
  }

  lemma CandidateOrdinary(entries: seq<Entry>, checkId: string, version: string)
    requires FindVersion(entries, checkId, version).Some?
    ensures AllOrdinary(entries) ==> Ordinary(version)
  {
    hide Ordinary;
    var e := FindVersion(entries, checkId, version).value;
    var i :| 0 <= i < |entries| && entries[i] == e;
  }

  lemma ActiveOrdinary(entries: seq<Entry>, checkId: string)
    requires ActiveVersion(entries, checkId).Some?
    ensures AllOrdinary(entries) ==> Ordinary(ActiveVersion(entries, checkId).value)
  {
    hide Ordinary;
    var e :| e in entries && IsActive(e, checkId) && e.envelope.version == ActiveVersion(entries, checkId).value;
    var i :| 0 <= i < |entries| && entries[i] == e;
  }

  lemma OrdinaryStep(repo: Repository, op: Op, checkId: string)
    ensures AllOrdinary(repo.entries) ==> !ActivatesClash(repo, op, checkId)
  {
    hide Ordinary, VersionsClash, CoreParts, FindVersion, ActiveVersion;
    if AllOrdinary(repo.entries) && op.Activate? && ActiveVersion(repo.entries, checkId).Some?
       && FindVersion(repo.entries, op.checkId, op.version).Some? {
      ActiveOrdinary(repo.entries, checkId);
      CandidateOrdinary(repo.entries, op.checkId, op.version);
      OrdinaryDoNotClash(ActiveVersion(repo.entries, checkId).value, op.version);
    }
  }

  /** With ordinary versions only, no activation clashes. */
  lemma OrdinaryNoClash(repo: Repository, ops: seq<Op>, checkId: string)
    requires Valid(repo) && VerifiedOps(ops)
    ensures AllOrdinary(repo.entries) && OrdinaryImports(ops) ==> NoClash(repo, ops, checkId)
  {
    hide Ordinary, ActivatesClash, Run, Valid, MatchesPattern;
    if AllOrdinary(repo.entries) && OrdinaryImports(ops) {
      forall n | 0 <= n < |ops|
        ensures !ActivatesClash(Run(repo, ops[..n]), ops[n], checkId)
      {
        RunStaysOrdinary(repo, ops[..n]);
        OrdinaryStep(Run(repo, ops[..n]), ops[n], checkId);
      }
    }
  }

  lemma OrdinaryFaces(version: string)
    requires Ordinary(version)
    ensures MatchesPattern(version) && |FaceValue(version).core| == 3
  {
    hide CoreParts, OrdinaryPrerelease, IdentifierBytes, Prerelease, DecimalValue, AllDigits, Atoi;
  }

  lemma OrdinaryAt(repo: Repository, ops: seq<Op>, checkId: string, n: nat)
    requires Valid(repo) && VerifiedOps(ops) && n <= |ops| && AllOrdinary(repo.entries) && OrdinaryImports(ops)
    ensures var active := ActiveAt(repo, ops, checkId, n); active.Some? ==> Ordinary(active.value)
  {
    hide Ordinary, Run, Valid, MatchesPattern, VerifiedOp, ActiveVersion;
    RunStaysOrdinary(repo, ops[..n]);
    if ActiveAt(repo, ops, checkId, n).Some? {
      ActiveOrdinary(Run(repo, ops[..n]).entries, checkId);
    }
  }

  /** In the terms of section 11: with ordinary versions only and without rollback approvals,
      at no point of a run does the active version precede an earlier one, and a check that
      is active stays active. */
  lemma OrdinaryNeverPrecedes(repo: Repository, ops: seq<Op>, checkId: string, i: nat, j: nat)
    requires Valid(repo) && VerifiedOps(ops) && i <= j <= |ops|
    ensures var earlier, later := ActiveAt(repo, ops, checkId, i), ActiveAt(repo, ops, checkId, j);
      AllOrdinary(repo.entries) && OrdinaryImports(ops) && NoRollbackApproved(ops) && earlier.Some? ==>
        && later.Some? && Ordinary(earlier.value) && Ordinary(later.value)
        && |FaceValue(later.value).core| == |FaceValue(earlier.value).core| == 3
        && !Precedes(FaceValue(later.value), FaceValue(earlier.value))
  {
    hide Ordinary, Run, Valid, MatchesPattern, VerifiedOp, ActiveAt, CompareVersions, FaceValue, Precedes, CoreParts, NoClash;
    var earlier, later := ActiveAt(repo, ops, checkId, i), ActiveAt(repo, ops, checkId, j);
    if AllOrdinary(repo.entries) && OrdinaryImports(ops) && NoRollbackApproved(ops) && earlier.Some? {
      OrdinaryNoClash(repo, ops, checkId);
      NotLoweredBetween(repo, ops, checkId, i, j);
      OrdinaryAt(repo, ops, checkId, i);
      OrdinaryAt(repo, ops, checkId, j);
      OrdinaryFaces(earlier.value);
      OrdinaryFaces(later.value);
      ComparisonIsPrecedence(earlier.value, later.value);
    }
  }

  // ----- Publishers

  lemma {:induction false} RecordedKeyStays(repo: Repository, ops: seq<Op>, keyId: string, i: nat, j: nat)
    requires Valid(repo) && VerifiedOps(ops) && i <= j <= |ops|
    ensures var before, after := Run(repo, ops[..i]).publishers, Run(repo, ops[..j]).publishers;
      keyId in before ==> keyId in after && after[keyId].publicKey == before[keyId].publicKey
    decreases j - i
  {
    hide Run, Valid, VerifiedOp, IsBlank, CoreParts, CompareVersions;
    if i == j {
    } else {
      RecordedKeyStays(repo, ops, keyId, i, j - 1);
      RunStep(repo, ops, j - 1);
    }
  }

  predicate NotRevoked(ops: seq<Op>, keyId: string, from: nat) {
    forall k :: from <= k < |ops| ==> ops[k] != RevokePublisher(keyId)
  }

  /** The key was accepted by operation `i` and not revoked since. */
  predicate TrustedFrom(repo: Repository, ops: seq<Op>, keyId: string, i: nat)
    requires Valid(repo) && VerifiedOps(ops) && i < |ops|
  {
    Trusts(Run(repo, ops[..i]), ops[i], keyId) && NotRevoked(ops, keyId, i)
  }

  /** The last word on the key was to trust it. */
  predicate LastTrusted(repo: Repository, ops: seq<Op>, keyId: string)
    requires Valid(repo) && VerifiedOps(ops)
  {
    || (Trusted(repo, keyId) && NotRevoked(ops, keyId, 0))
    || exists i :: 0 <= i < |ops| && TrustedFrom(repo, ops, keyId, i)
  }

  lemma TrustedFromEarlier(repo: Repository, ops: seq<Op>, keyId: string, i: nat)
    requires Valid(repo) && VerifiedOps(ops) && i < |ops| - 1
    ensures TrustedFrom(repo, ops, keyId, i) <==>
      TrustedFrom(repo, ops[..|ops| - 1], keyId, i) && ops[|ops| - 1] != RevokePublisher(keyId)
  {
    hide Run, Valid, VerifiedOp, Trusts, Trusted;
    assert ops[..|ops| - 1][..i] == ops[..i];
  }

  lemma TrustedLast(repo: Repository, ops: seq<Op>, keyId: string)
    requires Valid(repo) && VerifiedOps(ops) && ops != []
    ensures var n := |ops| - 1;
      TrustedFrom(repo, ops, keyId, n) <==> Trusts(Run(repo, ops[..n]), ops[n], keyId) && ops[n] != RevokePublisher(keyId)
  {
    hide Run, Valid, VerifiedOp, Trusts;
  }

  lemma LastTrustedStep(repo: Repository, ops: seq<Op>, keyId: string)
    requires Valid(repo) && VerifiedOps(ops) && ops != []
    ensures var n := |ops| - 1;
      LastTrusted(repo, ops, keyId) <==>
        ops[n] != RevokePublisher(keyId) && (LastTrusted(repo, ops[..n], keyId) || Trusts(Run(repo, ops[..n]), ops[n], keyId))
  {
    hide Run, Valid, VerifiedOp, TrustedFrom, Trusted;
    var n := |ops| - 1;
    assert TrustedFrom(repo, ops, keyId, n) <==>
      Trusts(Run(repo, ops[..n]), ops[n], keyId) && ops[n] != RevokePublisher(keyId) by { TrustedLast(repo, ops, keyId); }
    forall i | 0 <= i < n
      ensures TrustedFrom(repo, ops, keyId, i) <==> TrustedFrom(repo, ops[..n], keyId, i) && ops[n] != RevokePublisher(keyId)
    {
      TrustedFromEarlier(repo, ops, keyId, i);
    }
    assert NotRevoked(ops, keyId, 0) <==> NotRevoked(ops[..n], keyId, 0) && ops[n] != RevokePublisher(keyId);
  }

  lemma NothingTrusted(repo: Repository, keyId: string)
    requires Valid(repo)
    ensures LastTrusted(repo, [], keyId) <==> Trusted(repo, keyId)
  {
    hide Run, Valid;
  }

  /** In every run, a key is trusted exactly when it was accepted at some time and not
      revoked since. */
  lemma {:induction false} TrustHistory(repo: Repository, ops: seq<Op>, keyId: string)
    requires Valid(repo) && VerifiedOps(ops)
    ensures Trusted(Run(repo, ops), keyId) <==> LastTrusted(repo, ops, keyId)
  {
    hide Valid, VerifiedOp, LastTrusted, IsBlank, CoreParts, CompareVersions;
    if ops == [] {
      NothingTrusted(repo, keyId);
    } else {
      TrustHistory(repo, ops[..|ops| - 1], keyId);
      LastTrustedStep(repo, ops, keyId);
    }
  }

  lemma NotLastTrusted(repo: Repository, ops: seq<Op>, keyId: string, i: nat)
    requires Valid(repo) && VerifiedOps(ops) && i < |ops| && ops[i] == RevokePublisher(keyId)
    requires forall k :: i < k < |ops| ==> !Trusts(Run(repo, ops[..k]), ops[k], keyId)
    ensures !LastTrusted(repo, ops, keyId)
  {
    hide Run, Valid, VerifiedOp, Trusted;
  }

  lemma ValidUnique(repo: Repository)
    requires Valid(repo)
    ensures UniqueEntries(repo.entries)
  {
  }

  /** From a revocation until the key is accepted again, nothing signed with it is imported
      or activated, whatever else happens. */
  lemma RevokedShutOut(repo: Repository, ops: seq<Op>, keyId: string, i: nat)
    requires Valid(repo) && VerifiedOps(ops) && i < |ops| && ops[i] == RevokePublisher(keyId)
    requires forall k :: i < k < |ops| ==> !Trusts(Run(repo, ops[..k]), ops[k], keyId)
    ensures var r := Run(repo, ops);
      && (forall envelope: Envelope, verifies :: envelope.keyId == keyId ==>
            Apply(r, Import(envelope, verifies)) == Effect(r, PublisherNotTrusted))
      && (forall e, allowRollback :: e in r.entries && e.envelope.keyId == keyId ==>
            Apply(r, Activate(e.envelope.checkId, e.envelope.version, allowRollback)) == Effect(r, PublisherNotTrusted))
  {
    hide Run, Valid, VerifiedOp, Trusts, Trusted, FindVersion, ActiveVersion, Activated, CompareVersions, CoreParts, UniqueEntries;
    TrustHistory(repo, ops, keyId);
    NotLastTrusted(repo, ops, keyId, i);
    var r := Run(repo, ops);
    assert UniqueEntries(r.entries) by { ValidUnique(r); }
    forall e, allowRollback | e in r.entries && e.envelope.keyId == keyId
      ensures Apply(r, Activate(e.envelope.checkId, e.envelope.version, allowRollback)) == Effect(r, PublisherNotTrusted)
    {
      assert Names(e, e.envelope.checkId, e.envelope.version);
      SameEntry(r.entries, e.envelope.checkId, e.envelope.version);
    }
  }

  // ----- A run that lowers

  datatype Signer = Signer(keyId: string, name: string, publicKey: string)
  {
    /** A signer that the catalog can trust and whose envelopes can verify. */
    predicate Valid() { IsNamespaced(keyId) && !IsBlank(name) && |publicKey| == PUBLIC_KEY_SIZE }

    function Sign(checkId: string, version: string, signature: string -> string): Envelope {
      Envelope(checkId, version, keyId, signature(version))
    }
  }

  const EMPTY := Repository(map[], [])

  /** Trust the signer, import three versions, activate them in turn. */
  function TrustImportActivate(signer: Signer, checkId: string, signature: string -> string,
                               first: string, second: string, third: string): seq<Op>
  {
    [TrustPublisher(signer.keyId, signer.name, signer.publicKey),
     Import(signer.Sign(checkId, first, signature), true),
     Import(signer.Sign(checkId, second, signature), true),
     Import(signer.Sign(checkId, third, signature), true),
     Activate(checkId, first, false),
     Activate(checkId, second, false),
     Activate(checkId, third, false)]
  }

  function Staging(signer: Signer, checkId: string, signature: string -> string, versions: seq<string>): Repository {
    Repository(map[signer.keyId := Publisher(TrimSpace(signer.name), signer.publicKey, true)],
               seq(|versions|, i requires 0 <= i < |versions| => Entry(signer.Sign(checkId, versions[i], signature), Staged)))
  }

  lemma ImportStages(signer: Signer, checkId: string, signature: string -> string, versions: seq<string>, version: string)
    requires version !in versions && Comparable(Staging(signer, checkId, signature, versions).entries)
    ensures Apply(Staging(signer, checkId, signature, versions), Import(signer.Sign(checkId, version, signature), true))
      == Effect(Staging(signer, checkId, signature, versions + [version]), Done)
  {
    hide CoreParts, CompareVersions, FindVersion;
    var repo := Staging(signer, checkId, signature, versions);
    assert FindVersion(repo.entries, checkId, version).None?;
    assert repo.entries + [Entry(signer.Sign(checkId, version, signature), Staged)]
        == Staging(signer, checkId, signature, versions + [version]).entries;
  }

  lemma ActivationKeepsPublishers(repo: Repository, checkId: string, version: string)
    requires Comparable(repo.entries)
    ensures Apply(repo, Activate(checkId, version, false)).repo.publishers == repo.publishers
  {
    hide CoreParts, CompareVersions, FindVersion, ActiveVersion, Activated;
  }

  lemma ActivationKeepsTrusted(repo: Repository, checkId: string, version: string, other: string)
    requires Comparable(repo.entries) && TrustedVersion(repo, checkId, other)
    ensures TrustedVersion(Apply(repo, Activate(checkId, version, false)).repo, checkId, other)
  {
    hide CoreParts, Apply, Comparable;
    var after := Apply(repo, Activate(checkId, version, false)).repo;
    ActivationKeepsPublishers(repo, checkId, version);
    EnvelopesImmutable(repo, Activate(checkId, version, false));
    var e :| e in repo.entries && Names(e, checkId, other) && Trusted(repo, e.envelope.keyId);
    var i :| 0 <= i < |repo.entries| && repo.entries[i] == e;
    assert after.entries[i] in after.entries;
  }

  /** Activating a trusted version that is not reported lower leaves the others available. */
  lemma ActivateNext(repo: Repository, checkId: string, version: string)
    requires UniqueEntries(repo.entries) && Comparable(repo.entries)
    requires TrustedVersion(repo, checkId, version) && |CoreParts(version)| >= 3
    requires var active := ActiveVersion(repo.entries, checkId); active.Some? ==> CompareVersions(version, active.value) >= 0
    ensures var effect := Apply(repo, Activate(checkId, version, false));
      && effect.reply.Done? && ActiveVersion(effect.repo.entries, checkId) == Some(version)
      && forall other :: TrustedVersion(repo, checkId, other) ==> TrustedVersion(effect.repo, checkId, other)
  {
    hide CoreParts, CompareVersions, FindVersion, ActiveVersion, Activated, UniqueEntries, TrustedVersion;
    ActivationRule(repo, checkId, version, false);
    forall other | TrustedVersion(repo, checkId, other)
      ensures TrustedVersion(Apply(repo, Activate(checkId, version, false)).repo, checkId, other)
    {
      ActivationKeepsTrusted(repo, checkId, version, other);
    }
  }

  lemma StagingTrusts(signer: Signer, checkId: string, signature: string -> string, versions: seq<string>)
    ensures var repo := Staging(signer, checkId, signature, versions);
      && ActiveVersion(repo.entries, checkId).None?
      && forall version :: version in versions ==> TrustedVersion(repo, checkId, version)
  {
    hide ActiveVersion;
    var repo := Staging(signer, checkId, signature, versions);
    forall version | version in versions
      ensures TrustedVersion(repo, checkId, version)
    {
      var i :| 0 <= i < |versions| && versions[i] == version;
      assert repo.entries[i] in repo.entries;
    }
  }

  lemma RunsVerified(signer: Signer, checkId: string, signature: string -> string, first: string, second: string, third: string)
    requires signer.Valid() && IsNamespaced(checkId)
    requires MatchesPattern(first) && MatchesPattern(second) && MatchesPattern(third)
    ensures Valid(EMPTY)
    ensures var ops := TrustImportActivate(signer, checkId, signature, first, second, third);
      VerifiedOps(ops) && NoRollbackApproved(ops)
  {
    hide MatchesPattern, IsNamespaced, IsBlank;
  }

  lemma TrustStages(signer: Signer, checkId: string, signature: string -> string)
    requires signer.Valid() && Comparable(EMPTY.entries)
    ensures Apply(EMPTY, TrustPublisher(signer.keyId, signer.name, signer.publicKey))
      == Effect(Staging(signer, checkId, signature, []), Done)
  {
    hide IsBlank, IsNamespaced, TrimSpace;
  }

  lemma EmptyRun(ops: seq<Op>)
    requires VerifiedOps(ops)
    ensures Valid(EMPTY) && Run(EMPTY, ops[..0]) == EMPTY
  {
    assert ops[..0] == [];
  }

  /** The tables after trusting and importing. */
  lemma ImportsDone(signer: Signer, checkId: string, signature: string -> string, first: string, second: string, third: string)
    requires signer.Valid() && IsNamespaced(checkId)
    requires MatchesPattern(first) && MatchesPattern(second) && MatchesPattern(third)
    requires first != second && second != third && first != third
    ensures var ops := TrustImportActivate(signer, checkId, signature, first, second, third);
      && Valid(EMPTY) && VerifiedOps(ops)
      && Run(EMPTY, ops[..4]) == Staging(signer, checkId, signature, [first, second, third])
      && forall n :: 0 <= n < 4 ==> Apply(Run(EMPTY, ops[..n]), ops[n]).reply.Done?
  {
    hide MatchesPattern, IsNamespaced, IsBlank, Run, Apply, Staging, Valid, Comparable, VerifiedOp, Signer.Valid, Signer.Sign;
    RunsVerified(signer, checkId, signature, first, second, third);
    var ops := TrustImportActivate(signer, checkId, signature, first, second, third);
    EmptyRun(ops);
    RunStep(EMPTY, ops, 0);
    RunStep(EMPTY, ops, 1);
    RunStep(EMPTY, ops, 2);
    RunStep(EMPTY, ops, 3);
    assert [] + [first] == [first] && [first] + [second] == [first, second];
    assert [first, second] + [third] == [first, second, third];
    TrustStages(signer, checkId, signature);
    ImportStages(signer, checkId, signature, [], first);
    ImportStages(signer, checkId, signature, [first], second);
    ImportStages(signer, checkId, signature, [first, second], third);
  }

  /** What the activations leave active, if each is not reported lower than the one before. */
  lemma ActivationsDone(signer: Signer, checkId: string, signature: string -> string, first: string, second: string, third: string)
    requires signer.Valid() && IsNamespaced(checkId)
    requires MatchesPattern(first) && MatchesPattern(second) && MatchesPattern(third)
    requires |CoreParts(first)| >= 3 && |CoreParts(second)| >= 3 && |CoreParts(third)| >= 3
    requires first != second && second != third && first != third
    requires CompareVersions(second, first) >= 0 && CompareVersions(third, second) >= 0
    ensures var ops := TrustImportActivate(signer, checkId, signature, first, second, third);
      && Valid(EMPTY) && VerifiedOps(ops)
      && ActiveAt(EMPTY, ops, checkId, 5) == Some(first)
      && ActiveAt(EMPTY, ops, checkId, 6) == Some(second)
      && ActiveAt(EMPTY, ops, checkId, 7) == Some(third)
      && TrustedVersion(Run(EMPTY, ops[..5]), checkId, second) && TrustedVersion(Run(EMPTY, ops[..6]), checkId, third)
      && forall n :: 4 <= n < 7 ==> Apply(Run(EMPTY, ops[..n]), ops[n]).reply.Done?
  {
    hide MatchesPattern, IsNamespaced, IsBlank, Run, Apply, Valid, VerifiedOp, CoreParts, CompareVersions, Comparable;
    hide Signer.Valid, Signer.Sign, Staging, ActiveVersion, TrustedVersion, UniqueEntries;
    ImportsDone(signer, checkId, signature, first, second, third);
    StagingTrusts(signer, checkId, signature, [first, second, third]);
    var ops := TrustImportActivate(signer, checkId, signature, first, second, third);
    RunStep(EMPTY, ops, 4);
    RunStep(EMPTY, ops, 5);
    RunStep(EMPTY, ops, 6);
    ActivateNext(Run(EMPTY, ops[..4]), checkId, first);
    ActivateNext(Run(EMPTY, ops[..5]), checkId, second);
    ActivateNext(Run(EMPTY, ops[..6]), checkId, third);
  }

  lemma ClashAt(ops: seq<Op>, checkId: string, n: nat, active: string, version: string)
    requires Valid(EMPTY) && VerifiedOps(ops) && n < |ops| && ops[n] == Activate(checkId, version, false)
    requires ActiveAt(EMPTY, ops, checkId, n) == Some(active) && TrustedVersion(Run(EMPTY, ops[..n]), checkId, version)
    requires VersionsClash(active, version)
    ensures ActivatesClash(Run(EMPTY, ops[..n]), ops[n], checkId)
  {
    hide Run, VerifiedOp, TrustedVersion, VersionsClash;
  }

  lemma ClashLowers(ops: seq<Op>, checkId: string, n: nat)
    requires Valid(EMPTY) && VerifiedOps(ops) && n < |ops| && ActivatesClash(Run(EMPTY, ops[..n]), ops[n], checkId)
    ensures !NoClash(EMPTY, ops, checkId)
  {
    hide Run, VerifiedOp, ActivatesClash;
  }

  /** For every check, signer and signatures: seven accepted calls on empty tables, none of
      them approving a rollback, that activate 1.0.0-1.5, then 1.0.0-01.5, then 1.0.0-1.3.
      The last two clash, and the last version is below the first. */
  lemma LoweredExample(signer: Signer, checkId: string, signature: string -> string) returns (ops: seq<Op>)
    requires signer.Valid() && IsNamespaced(checkId)
    ensures Valid(EMPTY) && VerifiedOps(ops) && NoRollbackApproved(ops) && |ops| == 7
    ensures forall n :: 0 <= n < 7 ==> Apply(Run(EMPTY, ops[..n]), ops[n]).reply.Done?
    ensures ActiveAt(EMPTY, ops, checkId, 5) == Some(One("1.5")) && ActiveAt(EMPTY, ops, checkId, 7) == Some(One("1.3"))
    ensures |CoreParts(One("1.5"))| == |CoreParts(One("1.3"))| == 3 && CompareVersions(One("1.3"), One("1.5")) == -1
    ensures ActivatesClash(Run(EMPTY, ops[..5]), ops[5], checkId) && ActivatesClash(Run(EMPTY, ops[..6]), ops[6], checkId)
    ensures !NeverLowered(EMPTY, ops, checkId)
  {
    hide MatchesPattern, IsNamespaced, IsBlank, Run, Apply, Valid, VerifiedOp, CoreParts, CompareVersions, Comparable;
    hide Signer.Valid, Signer.Sign, TrustedVersion, VersionsClash, One, ActiveAt, NeverLowered;
    var first, second, third := CircularExample();
    CircularClashes();
    ComparisonIsPreorder(first, second, third);
    ComparisonIsPreorder(second, third, first);
    RunsVerified(signer, checkId, signature, first, second, third);
    ImportsDone(signer, checkId, signature, first, second, third);
    ActivationsDone(signer, checkId, signature, first, second, third);
    ops := TrustImportActivate(signer, checkId, signature, first, second, third);
    ClashAt(ops, checkId, 5, first, second);
    ClashAt(ops, checkId, 6, second, third);
    NeverLoweredIff(EMPTY, ops, checkId);
    ClashLowers(ops, checkId, 5);
  }
}
