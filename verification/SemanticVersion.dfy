/** The version comparison of internal/checkcatalog/catalog.go, next to the precedence that
    section 11 of Semantic Versioning 2.0.0 defines. */
module SemanticVersion {
  import opened GoStrings

  // ----- Versions

  datatype Version = Version(core: seq<int>, prerelease: string)

  predicate NoLeadingZero(id: string) { |id| >= 1 && (id[0] != '0' || |id| == 1) }

  /** The version without build metadata, and its core and prerelease. */
  function Release(value: string): string { Cut(value, '+').0 }

  function CoreParts(value: string): seq<string> { Split(Cut(Release(value), '-').0, '.') }

  function Prerelease(value: string): string { Cut(Release(value), '-').1 }

  predicate IsCoreNumber(part: string) { IsNumeric(part) && NoLeadingZero(part) }

  /** The version pattern of internal/checkdefinition/format.go. */
  predicate MatchesPattern(value: string) {
    var parts, build := CoreParts(value), Cut(value, '+').1;
    && |parts| == 3 && IsCoreNumber(parts[0]) && IsCoreNumber(parts[1]) && IsCoreNumber(parts[2])
    && ('-' in Release(value) ==> Prerelease(value) != "") && IdentifierBytes(Prerelease(value))
    && ('+' in value ==> build != "") && IdentifierBytes(build)
  }

  /** `strconv.Atoi` with its error ignored: zero for a syntax error, the limit for a
      number out of range. */
  function LenientAtoi(s: string): int {
    if Atoi(s).Some? then Atoi(s).value
    else if IsNumeric(s) then MAXIMUM_INT
    else 0
  }

  /** `splitVersion`, which needs three core parts. */
  function SplitVersion(value: string): Version
    requires |CoreParts(value)| >= 3
  {
    var parts := CoreParts(value);
    Version([LenientAtoi(parts[0]), LenientAtoi(parts[1]), LenientAtoi(parts[2])], Prerelease(value))
  }

  // ----- The comparison of the catalog

  /** Two different identifiers. */
  function CompareIdentifier(a: string, b: string): int {
    var x, y := Atoi(a), Atoi(b);
    if x.Some? && y.Some? then if x.value < y.value then -1 else 1
    else if x.Some? then -1
    else if y.Some? then 1
    else if Less(a, b) then -1 else 1
  }

  function CompareIdentifiers(a: seq<string>, b: seq<string>): int {
    if a == [] || b == [] then if |a| < |b| then -1 else if |a| > |b| then 1 else 0
    else if a[0] == b[0] then CompareIdentifiers(a[1..], b[1..])
    else CompareIdentifier(a[0], b[0])
  }

  function ComparePrerelease(a: string, b: string): int {
    if a == b then 0
    else if a == "" then 1
    else if b == "" then -1
    else CompareIdentifiers(Split(a, '.'), Split(b, '.'))
  }

  function Compare(a: Version, b: Version): int
    requires |a.core| == 3 && |b.core| == 3
  {
    if a.core[0] != b.core[0] then if a.core[0] < b.core[0] then -1 else 1
    else if a.core[1] != b.core[1] then if a.core[1] < b.core[1] then -1 else 1
    else if a.core[2] != b.core[2] then if a.core[2] < b.core[2] then -1 else 1
    else ComparePrerelease(a.prerelease, b.prerelease)
  }

  function CompareVersions(left: string, right: string): int
    requires |CoreParts(left)| >= 3 && |CoreParts(right)| >= 3
  {
    Compare(SplitVersion(left), SplitVersion(right))
  }

  // ----- The loops

  method ComputeCompareIdentifiers(a: seq<string>, b: seq<string>) returns (r: int)
    ensures r == CompareIdentifiers(a, b)
  {
    hide Atoi, Less;
    var index := 0;
    while index < |a| && index < |b|
      invariant 0 <= index <= |a| && index <= |b|
      invariant CompareIdentifiers(a, b) == CompareIdentifiers(a[index..], b[index..])
    {
      if a[index] != b[index] {
        var x, y := Atoi(a[index]), Atoi(b[index]);
        if x.Some? && y.Some? {
          return if x.value < y.value then -1 else 1;
        }
        if x.Some? {
          return -1;
        }
        if y.Some? {
          return 1;
        }
        return if Less(a[index], b[index]) then -1 else 1;
      }
      index := index + 1;
    }
    return if |a| < |b| then -1 else if |a| > |b| then 1 else 0;
  }

  method ComputeCompareVersions(left: string, right: string) returns (r: int)
    requires |CoreParts(left)| >= 3 && |CoreParts(right)| >= 3
    ensures r == CompareVersions(left, right)
  {
    hide LenientAtoi, CompareIdentifiers, CoreParts, Split;
    var a, b := SplitVersion(left), SplitVersion(right);
    var index := 0;
    while index < |a.core|
      invariant 0 <= index <= 3
      invariant forall i :: 0 <= i < index ==> a.core[i] == b.core[i]
    {
      if a.core[index] < b.core[index] {
        return -1;
      }
      if a.core[index] > b.core[index] {
        return 1;
      }
      index := index + 1;
    }
    if a.prerelease == b.prerelease {
      return 0;
    }
    if a.prerelease == "" {
      return 1;
    }
    if b.prerelease == "" {
      return -1;
    }
    r := ComputeCompareIdentifiers(Split(a.prerelease, '.'), Split(b.prerelease, '.'));
  }

  // ----- Section 11 of Semantic Versioning 2.0.0

  /** Numeric identifiers compare as numbers, others in ASCII order, numeric ones first. */
  predicate IdentifierPrecedes(a: string, b: string) {
    if IsNumeric(a) && IsNumeric(b) then DecimalValue(a) < DecimalValue(b)
    else if IsNumeric(a) || IsNumeric(b) then IsNumeric(a)
    else Less(a, b)
  }

  predicate DecidesAt(a: seq<string>, b: seq<string>, k: nat)
    requires k <= |a| && k <= |b|
  {
    k < |b| && (k == |a| || IdentifierPrecedes(a[k], b[k]))
  }

  /** The first difference decides; a longer list is higher than its own beginning. */
  ghost predicate ListPrecedes(a: seq<string>, b: seq<string>) {
    exists k :: 0 <= k <= |a| && k <= |b| && a[..k] == b[..k] && DecidesAt(a, b, k)
  }

  /** A prerelease precedes the release. */
  ghost predicate PrereleasePrecedes(a: string, b: string) {
    a != "" && (b == "" || ListPrecedes(Split(a, '.'), Split(b, '.')))
  }

  ghost predicate Precedes(a: Version, b: Version)
    requires |a.core| == 3 && |b.core| == 3
  {
    || a.core[0] < b.core[0]
    || (a.core[0] == b.core[0] && a.core[1] < b.core[1])
    || (a.core[0] == b.core[0] && a.core[1] == b.core[1] && a.core[2] < b.core[2])
    || (a.core == b.core && PrereleasePrecedes(a.prerelease, b.prerelease))
  }

  // ----- Where the two agree

  /** The identifier reads the same way to both: a number without leading zeros that fits
      an int, or something that is not an integer at all. */
  predicate OrdinaryIdentifier(id: string) {
    if IsNumeric(id) then NoLeadingZero(id) && Atoi(id).Some? else Atoi(id).None?
  }

  predicate OrdinaryList(ids: seq<string>) { forall i :: 0 <= i < |ids| ==> OrdinaryIdentifier(ids[i]) }

  predicate OrdinaryPrerelease(p: string) { p == "" || OrdinaryList(Split(p, '.')) }

  lemma {:induction false} FirstDigit(id: string)
    requires IsNumeric(id)
    ensures IsDigit(id[0]) && !HasSign(id)
    decreases |id|
  {
    if |id| > 1 {
      FirstDigit(id[..|id| - 1]);
    }
  }

  /** What `strconv.Atoi` makes of a numeral: its value, unless that does not fit an int. */
  lemma NumericAtoi(id: string)
    requires IsNumeric(id)
    ensures Atoi(id) == if DecimalValue(id) <= MAXIMUM_INT then Some(DecimalValue(id)) else None
  {
    FirstDigit(id);
  }

  /** A number without leading zeros is positive, or the single digit zero. */
  lemma {:induction false} LeadingDigit(id: string)
    requires IsNumeric(id) && id[0] != '0'
    ensures DecimalValue(id) >= 1
    decreases |id|
  {
    FirstDigit(id);
    if |id| > 1 {
      LeadingDigit(id[..|id| - 1]);
    }
  }

  lemma LastDigits(a: string, b: string)
    requires IsNumeric(a) && IsNumeric(b) && DecimalValue(a) == DecimalValue(b)
    ensures a[|a| - 1] == b[|b| - 1]
    ensures DecimalValue(a[..|a| - 1]) == DecimalValue(b[..|b| - 1])
  {
    var x, y := DecimalValue(a[..|a| - 1]), DecimalValue(b[..|b| - 1]);
    var d, e := a[|a| - 1] as int - '0' as int, b[|b| - 1] as int - '0' as int;
    assert x * 10 + d == y * 10 + e;
    assert x == y;
  }

  /** Numbers without leading zeros are written in one way. */
  lemma {:induction false} DecimalInjective(a: string, b: string)
    requires IsNumeric(a) && IsNumeric(b) && NoLeadingZero(a) && NoLeadingZero(b)
    requires DecimalValue(a) == DecimalValue(b)
    ensures a == b
    decreases |a|
  {
    var m, n := |a| - 1, |b| - 1;
    assert a == a[..m] + [a[m]] && b == b[..n] + [b[n]];
    LastDigits(a, b);
    if m > 0 && n > 0 {
      DecimalInjective(a[..m], b[..n]);
    } else if m > 0 {
      LeadingDigit(a[..m]);
    } else if n > 0 {
      LeadingDigit(b[..n]);
    }
  }

  /** The comparison of two different identifiers is their precedence. */
  predicate IdentifiersAgree(a: string, b: string) {
    && (CompareIdentifier(a, b) == -1 <==> IdentifierPrecedes(a, b))
    && (CompareIdentifier(a, b) == 1 <==> IdentifierPrecedes(b, a))
  }

  /** Two different identifiers that integer conversion, or its failure, leaves in the order
      of section 11. Numerals must not denote one number, and must be in byte order if both
      are too large. A numeral comes before a word, so a word that converts must not be the
      smaller number, and a numeral that is too large must be in byte order. Words that
      convert must do so in byte order. */
  predicate SameReading(a: string, b: string) {
    var x, y := Atoi(a), Atoi(b);
    if IsNumeric(a) && IsNumeric(b) then
      if x.Some? && y.Some? then x != y
      else x.Some? || y.Some? || (DecimalValue(a) != DecimalValue(b) && (Less(a, b) <==> DecimalValue(a) < DecimalValue(b)))
    else if IsNumeric(a) then
      if y.Some? then x.Some? && x.value < y.value else x.Some? || Less(a, b)
    else if IsNumeric(b) then
      if x.Some? then y.Some? && y.value <= x.value else y.Some? || Less(b, a)
    else if x.Some? && y.Some? then x.value < y.value <==> Less(a, b)
    else if x.Some? then Less(a, b)
    else y.Some? ==> Less(b, a)
  }

  lemma IdentifierAgreementIff(a: string, b: string)
    requires a != b
    ensures IdentifiersAgree(a, b) <==> SameReading(a, b)
  {
    hide Atoi, Less, DecimalValue, AllDigits;
    if IsNumeric(a) {
      NumericAtoi(a);
    }
    if IsNumeric(b) {
      NumericAtoi(b);
    }
    LessTotal(a, b);
    if Less(a, b) {
      LessAsymmetric(a, b);
    }
  }

  lemma IdentifierIrreflexive(a: string)
    ensures !IdentifierPrecedes(a, a)
  {
    LessIrreflexive(a);
  }

  /** Behind a common beginning, precedence is that of the rest. */
  lemma ListPrecedesRest(a: seq<string>, b: seq<string>)
    requires a != [] && b != [] && a[0] == b[0]
    ensures ListPrecedes(a, b) <==> ListPrecedes(a[1..], b[1..])
  {
    hide IdentifierPrecedes;
    if ListPrecedes(a, b) {
      var k :| 0 <= k <= |a| && k <= |b| && a[..k] == b[..k] && DecidesAt(a, b, k);
      IdentifierIrreflexive(a[0]);
      assert k > 0;
      assert a[1..][..k - 1] == a[..k][1..] && b[1..][..k - 1] == b[..k][1..];
      assert DecidesAt(a[1..], b[1..], k - 1);
    }
    if ListPrecedes(a[1..], b[1..]) {
      var k :| 0 <= k <= |a[1..]| && k <= |b[1..]| && a[1..][..k] == b[1..][..k] && DecidesAt(a[1..], b[1..], k);
      assert a[..k + 1] == [a[0]] + a[1..][..k] && b[..k + 1] == [b[0]] + b[1..][..k];
      assert DecidesAt(a, b, k + 1);
    }
  }

  /** Lists that differ in their first element are decided there. */
  lemma ListPrecedesFirst(a: seq<string>, b: seq<string>)
    requires a == [] || b == [] || a[0] != b[0]
    ensures ListPrecedes(a, b) <==> b != [] && (a == [] || IdentifierPrecedes(a[0], b[0]))
  {
    hide IdentifierPrecedes;
    if b != [] && (a == [] || IdentifierPrecedes(a[0], b[0])) {
      assert a[..0] == b[..0] && DecidesAt(a, b, 0);
    }
    if ListPrecedes(a, b) {
      var k :| 0 <= k <= |a| && k <= |b| && a[..k] == b[..k] && DecidesAt(a, b, k);
      SameBeginning(a, b, k);
    }
  }

  ghost predicate ListsAgree(a: seq<string>, b: seq<string>) {
    && (CompareIdentifiers(a, b) == -1 <==> ListPrecedes(a, b))
    && (CompareIdentifiers(a, b) == 1 <==> ListPrecedes(b, a))
  }

  /** At their first difference, the lists have identifiers that read the same. */
  predicate ListReading(a: seq<string>, b: seq<string>) {
    a == [] || b == [] || if a[0] == b[0] then ListReading(a[1..], b[1..]) else SameReading(a[0], b[0])
  }

  lemma IdentifierSign(a: string, b: string)
    ensures CompareIdentifier(a, b) == -1 || CompareIdentifier(a, b) == 1
  {
  }

  lemma {:induction false} ListAgreementIff(a: seq<string>, b: seq<string>)
    ensures ListsAgree(a, b) <==> ListReading(a, b)
    decreases |a|
  {
    hide CompareIdentifier, IdentifierPrecedes, SameReading, ListPrecedes;
    if a == [] || b == [] {
      ListPrecedesFirst(a, b);
      ListPrecedesFirst(b, a);
    } else if a[0] == b[0] {
      ListPrecedesRest(a, b);
      ListPrecedesRest(b, a);
      ListAgreementIff(a[1..], b[1..]);
    } else {
      ListPrecedesFirst(a, b);
      ListPrecedesFirst(b, a);
      IdentifierAgreementIff(a[0], b[0]);
      IdentifierSign(a[0], b[0]);
    }
  }

  lemma {:induction false} ListZero(a: seq<string>, b: seq<string>)
    ensures CompareIdentifiers(a, b) == 0 <==> a == b
    decreases |a|
  {
    hide CompareIdentifier;
    if a == [] || b == [] {
    } else if a[0] == b[0] {
      ListZero(a[1..], b[1..]);
      assert a == [a[0]] + a[1..] && b == [b[0]] + b[1..];
    } else {
      IdentifierSign(a[0], b[0]);
    }
  }

  lemma {:induction false} SplitInjective(a: string, b: string)
    requires Split(a, '.') == Split(b, '.')
    ensures a == b
    decreases |a|
  {
    if '.' in a && '.' in b {
      var (x, y) := (Cut(a, '.'), Cut(b, '.'));
      assert Split(a, '.')[1..] == Split(x.1, '.') && Split(b, '.')[1..] == Split(y.1, '.');
      assert Split(a, '.')[0] == x.0 && Split(b, '.')[0] == y.0;
      SplitInjective(x.1, y.1);
    }
  }

  /** Every version the catalog accepts whose numbers fit an int and whose prerelease
      identifiers are ordinary. */
  predicate Ordinary(value: string) {
    && MatchesPattern(value)
    && (forall i :: 0 <= i < 3 ==> Atoi(CoreParts(value)[i]).Some?)
    && OrdinaryPrerelease(Prerelease(value))
  }

  /** The version with its core numbers taken at face value. */
  function FaceValue(value: string): Version
    requires MatchesPattern(value)
  {
    var parts := CoreParts(value);
    Version([DecimalValue(parts[0]), DecimalValue(parts[1]), DecimalValue(parts[2])], Prerelease(value))
  }

  function SaturatedCore(v: Version): Version
    requires |v.core| == 3
  {
    v.(core := [Saturated(v.core[0]), Saturated(v.core[1]), Saturated(v.core[2])])
  }

  /** The catalog compares face values with saturated cores. */
  lemma SplitIsSaturated(value: string)
    requires MatchesPattern(value)
    ensures SplitVersion(value) == SaturatedCore(FaceValue(value))
  {
    hide CoreParts, Prerelease, Atoi, IdentifierBytes, AllDigits, DecimalValue;
    NumericAtoi(CoreParts(value)[0]);
    NumericAtoi(CoreParts(value)[1]);
    NumericAtoi(CoreParts(value)[2]);
  }

  ghost predicate PrereleasesAgree(a: string, b: string) {
    && (ComparePrerelease(a, b) == -1 <==> PrereleasePrecedes(a, b))
    && (ComparePrerelease(a, b) == 1 <==> PrereleasePrecedes(b, a))
  }

  predicate PrereleaseReading(a: string, b: string) { a == "" || b == "" || ListReading(Split(a, '.'), Split(b, '.')) }

  lemma PrereleaseAgreementIff(a: string, b: string)
    ensures PrereleasesAgree(a, b) <==> PrereleaseReading(a, b)
  {
    hide CompareIdentifiers, ListPrecedes, Split, ListReading;
    ListAgreementIff(Split(a, '.'), Split(b, '.'));
    ListZero(Split(a, '.'), Split(b, '.'));
  }

  lemma PrereleaseZero(a: string, b: string)
    ensures ComparePrerelease(a, b) == 0 <==> a == b
  {
    hide CompareIdentifiers, Split;
    ListZero(Split(a, '.'), Split(b, '.'));
    if Split(a, '.') == Split(b, '.') {
      SplitInjective(a, b);
    }
  }

  /** The comparison of two accepted versions is their precedence. */
  ghost predicate VersionsAgree(left: string, right: string)
    requires MatchesPattern(left) && MatchesPattern(right)
  {
    var a, b := FaceValue(left), FaceValue(right);
    && (Compare(SplitVersion(left), SplitVersion(right)) == -1 <==> Precedes(a, b))
    && (Compare(SplitVersion(left), SplitVersion(right)) == 1 <==> Precedes(b, a))
  }

  function FirstDifference(a: seq<int>, b: seq<int>): (i: nat)
    requires |a| == |b| == 3 && a != b
    ensures i < 3 && a[i] != b[i] && forall j :: 0 <= j < i ==> a[j] == b[j]
  {
    if a[0] != b[0] then 0 else if a[1] != b[1] then 1 else assert a == [a[0], a[1], a[2]] && b == [b[0], b[1], b[2]]; 2
  }

  /** Behind core number `i`, the first number that differs once it is saturated is the
      smaller one on the left, or on the right; if there is none, the prereleases are in that
      order. */
  predicate OrderedBehind(a: Version, b: Version, i: nat, leftLower: bool)
    requires |a.core| == |b.core| == 3 && i <= 3
    decreases 3 - i
  {
    if i >= 2 then ComparePrerelease(a.prerelease, b.prerelease) == if leftLower then -1 else 1
    else
      var x, y := Saturated(a.core[i + 1]), Saturated(b.core[i + 1]);
      if x == y then OrderedBehind(a, b, i + 1, leftLower) else leftLower == (x < y)
  }

  /** Equal cores with prereleases that read the same, or cores whose first difference is not
      between two numbers that are both out of range. Numbers out of range are taken for
      equal, so what is behind them must happen to be ordered as they are. */
  predicate VersionReading(a: Version, b: Version)
    requires |a.core| == |b.core| == 3
  {
    if a.core == b.core then PrereleaseReading(a.prerelease, b.prerelease)
    else
      var i := FirstDifference(a.core, b.core);
      Saturated(a.core[i]) != Saturated(b.core[i]) || OrderedBehind(a, b, i, a.core[i] < b.core[i])
  }

  lemma {:induction false} ListSign(a: seq<string>, b: seq<string>)
    ensures -1 <= CompareIdentifiers(a, b) <= 1
    decreases |a|
  {
    hide CompareIdentifier;
    if a == [] || b == [] {
    } else if a[0] == b[0] {
      ListSign(a[1..], b[1..]);
    } else {
      IdentifierSign(a[0], b[0]);
    }
  }

  lemma PrereleaseSign(a: string, b: string)
    ensures -1 <= ComparePrerelease(a, b) <= 1
  {
    hide Split, CompareIdentifiers;
    ListSign(Split(a, '.'), Split(b, '.'));
  }

  lemma CoreEquality(a: Version, b: Version)
    requires |a.core| == 3 && |b.core| == 3
    ensures a.core == b.core <==> a.core[0] == b.core[0] && a.core[1] == b.core[1] && a.core[2] == b.core[2]
  {
  }

  /** Where the saturated cores agree up to number `i`, what is behind it decides. */
  lemma BehindDecides(a: Version, b: Version, i: nat, leftLower: bool)
    requires |a.core| == |b.core| == 3 && i < 3
    requires forall k :: 0 <= k <= i ==> Saturated(a.core[k]) == Saturated(b.core[k])
    ensures OrderedBehind(a, b, i, leftLower) <==> Compare(SaturatedCore(a), SaturatedCore(b)) == if leftLower then -1 else 1
    decreases 3 - i
  {
    hide ComparePrerelease;
    if i < 2 && Saturated(a.core[i + 1]) == Saturated(b.core[i + 1]) {
      BehindDecides(a, b, i + 1, leftLower);
    }
  }

  lemma ParsedAgreementIff(a: Version, b: Version)
    requires |a.core| == |b.core| == 3
    ensures (&& (Compare(SaturatedCore(a), SaturatedCore(b)) == -1 <==> Precedes(a, b))
             && (Compare(SaturatedCore(a), SaturatedCore(b)) == 1 <==> Precedes(b, a)))
            <==> VersionReading(a, b)
  {
    hide ComparePrerelease, PrereleasePrecedes, PrereleaseReading, OrderedBehind;
    PrereleaseAgreementIff(a.prerelease, b.prerelease);
    CoreEquality(a, b);
    PrereleaseSign(a.prerelease, b.prerelease);
    if a.core != b.core {
      var i := FirstDifference(a.core, b.core);
      if Saturated(a.core[i]) == Saturated(b.core[i]) {
        BehindDecides(a, b, i, a.core[i] < b.core[i]);
      }
    }
  }

  lemma FaceCore(value: string)
    requires MatchesPattern(value)
    ensures |FaceValue(value).core| == 3
  {
  }

  /** For all accepted versions: the comparison is the precedence of section 11 exactly when
      the versions read the same. */
  lemma AgreementIff(left: string, right: string)
    ensures MatchesPattern(left) && MatchesPattern(right) ==>
      (VersionsAgree(left, right) <==> VersionReading(FaceValue(left), FaceValue(right)))
  {
    hide SplitVersion, FaceValue, Compare, Precedes, VersionReading, CoreParts, IdentifierBytes, IsCoreNumber;
    if MatchesPattern(left) && MatchesPattern(right) {
      SplitIsSaturated(left);
      SplitIsSaturated(right);
      FaceCore(left);
      FaceCore(right);
      ParsedAgreementIff(FaceValue(left), FaceValue(right));
    }
  }

  lemma OrdinaryIdentifiersRead(a: string, b: string)
    requires a != b && OrdinaryIdentifier(a) && OrdinaryIdentifier(b)
    ensures SameReading(a, b)
  {
    hide Atoi, Less, DecimalValue, AllDigits;
    if IsNumeric(a) && IsNumeric(b) {
      NumericAtoi(a);
      NumericAtoi(b);
      if DecimalValue(a) == DecimalValue(b) {
        DecimalInjective(a, b);
      }
    }
  }

  lemma {:induction false} OrdinaryListsRead(a: seq<string>, b: seq<string>)
    requires OrdinaryList(a) && OrdinaryList(b)
    ensures ListReading(a, b)
    decreases |a|
  {
    hide SameReading, OrdinaryIdentifier;
    if a == [] || b == [] {
    } else if a[0] == b[0] {
      OrdinaryListsRead(a[1..], b[1..]);
    } else {
      OrdinaryIdentifiersRead(a[0], b[0]);
    }
  }

  lemma OrdinaryFits(value: string)
    requires Ordinary(value)
    ensures SplitVersion(value) == FaceValue(value) == SaturatedCore(FaceValue(value))
  {
    hide CoreParts, Prerelease, Atoi, IdentifierBytes, OrdinaryPrerelease, AllDigits, DecimalValue;
    NumericAtoi(CoreParts(value)[0]);
    NumericAtoi(CoreParts(value)[1]);
    NumericAtoi(CoreParts(value)[2]);
  }

  lemma OrdinaryReads(left: string, right: string)
    requires Ordinary(left) && Ordinary(right)
    ensures VersionReading(FaceValue(left), FaceValue(right))
    ensures SplitVersion(left) == FaceValue(left) && SplitVersion(right) == FaceValue(right)
  {
    hide CoreParts, Prerelease, Atoi, IdentifierBytes, OrdinaryList, ListReading, Split, Compare, AllDigits, DecimalValue;
    OrdinaryFits(left);
    OrdinaryFits(right);
    if Prerelease(left) != "" && Prerelease(right) != "" {
      OrdinaryListsRead(Split(Prerelease(left), '.'), Split(Prerelease(right), '.'));
    }
  }

  lemma OrdinaryMatches(value: string)
    requires Ordinary(value)
    ensures MatchesPattern(value)
  {
  }

  /** In particular for ordinary versions, which also compare equal exactly when nothing but
      build metadata differs. */
  lemma ComparisonIsPrecedence(left: string, right: string)
    requires Ordinary(left) && Ordinary(right)
    ensures CompareVersions(left, right) == -1 <==> Precedes(FaceValue(left), FaceValue(right))
    ensures CompareVersions(left, right) == 1 <==> Precedes(FaceValue(right), FaceValue(left))
    ensures CompareVersions(left, right) == 0 <==> FaceValue(left) == FaceValue(right)
  {
    hide ComparePrerelease, Precedes, VersionReading, CoreParts, SplitVersion, FaceValue, Ordinary;
    OrdinaryReads(left, right);
    OrdinaryMatches(left);
    OrdinaryMatches(right);
    AgreementIff(left, right);
    FaceCore(left);
    FaceCore(right);
    var a, b := FaceValue(left), FaceValue(right);
    PrereleaseZero(a.prerelease, b.prerelease);
    CoreEquality(a, b);
  }

  // ----- The comparison is a preorder on all versions

  lemma HeadsTransitive(a: string, b: string, c: string)
    requires a != b || b != c
    requires (a == b || CompareIdentifier(a, b) <= 0) && (b == c || CompareIdentifier(b, c) <= 0)
    ensures a != c && CompareIdentifier(a, c) <= 0
  {
    hide Atoi, Less;
    LessIrreflexive(a);
    if Less(a, b) && Less(b, c) {
      LessTransitive(a, b, c);
    }
  }

  lemma {:induction false} ListsTransitive(a: seq<string>, b: seq<string>, c: seq<string>)
    requires CompareIdentifiers(a, b) <= 0 && CompareIdentifiers(b, c) <= 0
    ensures CompareIdentifiers(a, c) <= 0
    decreases |a|
  {
    hide CompareIdentifier;
    if a == [] || b == [] || c == [] {
    } else {
      if a[0] == b[0] && b[0] == c[0] {
        ListsTransitive(a[1..], b[1..], c[1..]);
      } else {
        HeadsTransitive(a[0], b[0], c[0]);
      }
    }
  }

  lemma PrereleasesTransitive(a: string, b: string, c: string)
    requires ComparePrerelease(a, b) <= 0 && ComparePrerelease(b, c) <= 0
    ensures ComparePrerelease(a, c) <= 0
  {
    hide CompareIdentifiers, Split;
    if a != b && b != c && a != "" && b != "" && c != "" {
      ListsTransitive(Split(a, '.'), Split(b, '.'), Split(c, '.'));
    }
  }

  lemma SamePrerelease(p: string)
    ensures ComparePrerelease(p, p) == 0
  {
  }

  /** Being at most as high is reflexive and transitive, whatever the identifiers look like. */
  lemma ComparisonIsPreorder(a: string, b: string, c: string)
    requires |CoreParts(a)| >= 3 && |CoreParts(b)| >= 3 && |CoreParts(c)| >= 3
    ensures CompareVersions(a, a) == 0
    ensures CompareVersions(a, b) <= 0 && CompareVersions(b, c) <= 0 ==> CompareVersions(a, c) <= 0
  {
    hide ComparePrerelease, LenientAtoi, CoreParts, Prerelease;
    var x, y, z := Prerelease(a), Prerelease(b), Prerelease(c);
    assert ComparePrerelease(x, x) == 0 by { SamePrerelease(x); }
    if ComparePrerelease(x, y) <= 0 && ComparePrerelease(y, z) <= 0 {
      PrereleasesTransitive(x, y, z);
    }
  }

  // ----- Where they differ

  /** Two different identifiers compare inconsistently exactly when they denote one number. */
  lemma IdentifierAntisymmetryIff(a: string, b: string)
    requires a != b
    ensures CompareIdentifier(a, b) == -CompareIdentifier(b, a) <==> !(Atoi(a).Some? && Atoi(a) == Atoi(b))
  {
    hide Atoi;
    LessTotal(a, b);
    if Less(a, b) {
      LessAsymmetric(a, b);
    }
  }

  /** At their first difference, both lists have an identifier for the same number. */
  predicate Clash(a: seq<string>, b: seq<string>) {
    a != [] && b != [] &&
      if a[0] == b[0] then Clash(a[1..], b[1..]) else Atoi(a[0]).Some? && Atoi(a[0]) == Atoi(b[0])
  }

  /** Same core, and prereleases that first differ in two spellings of one number. */
  predicate VersionsClash(left: string, right: string) {
    && |CoreParts(left)| >= 3 && |CoreParts(right)| >= 3
    && var a, b := SplitVersion(left), SplitVersion(right);
    && a.core == b.core && a.prerelease != "" && b.prerelease != "" && Clash(Split(a.prerelease, '.'), Split(b.prerelease, '.'))
  }

  lemma SameNumber(a: string, b: string)
    ensures Atoi(a).Some? && Atoi(a) == Atoi(b) ==> CompareIdentifier(a, b) == CompareIdentifier(b, a) == 1
  {
    hide Atoi;
  }

  /** Then each is reported higher than the other. */
  lemma {:induction false} ListAntisymmetryIff(a: seq<string>, b: seq<string>)
    ensures CompareIdentifiers(a, b) == -CompareIdentifiers(b, a) <==> !Clash(a, b)
    ensures Clash(a, b) ==> CompareIdentifiers(a, b) == CompareIdentifiers(b, a) == 1
    decreases |a|
  {
    hide Atoi, CompareIdentifier;
    if a == [] || b == [] {
    } else {
      if a[0] == b[0] {
        ListAntisymmetryIff(a[1..], b[1..]);
      } else {
        IdentifierAntisymmetryIff(a[0], b[0]);
        SameNumber(a[0], b[0]);
      }
    }
  }

  lemma {:induction false} NoClashWithItself(a: seq<string>)
    ensures !Clash(a, a)
  {
    if a == [] {
    } else {
      NoClashWithItself(a[1..]);
    }
  }

  /** Any two versions compare consistently exactly when their prereleases do not clash; if
      they do, each is reported higher than the other. */
  lemma AntisymmetryIff(left: string, right: string)
    requires |CoreParts(left)| >= 3 && |CoreParts(right)| >= 3
    ensures CompareVersions(left, right) == -CompareVersions(right, left) <==> !VersionsClash(left, right)
    ensures VersionsClash(left, right) ==> CompareVersions(left, right) == CompareVersions(right, left) == 1
  {
    hide CoreParts, LenientAtoi, CompareIdentifiers, Clash, Split, Prerelease;
    var a, b := SplitVersion(left), SplitVersion(right);
    CoreEquality(a, b);
    ListAntisymmetryIff(Split(a.prerelease, '.'), Split(b.prerelease, '.'));
    NoClashWithItself(Split(a.prerelease, '.'));
  }

  /** Versions that never get lower, one clash, and again versions that never get lower: the
      last is not reported lower than the first. */
  lemma OneClashNotReported(first: string, before: string, after: string, last: string)
    ensures (&& |CoreParts(first)| >= 3 && |CoreParts(before)| >= 3 && |CoreParts(after)| >= 3 && |CoreParts(last)| >= 3
             && CompareVersions(first, before) <= 0 && VersionsClash(before, after) && CompareVersions(after, last) <= 0) ==>
      CompareVersions(last, first) > 0
  {
    hide CompareVersions, CoreParts, VersionsClash;
    if |CoreParts(first)| >= 3 && |CoreParts(before)| >= 3 && |CoreParts(after)| >= 3 && |CoreParts(last)| >= 3 {
      AntisymmetryIff(before, after);
      ComparisonIsPreorder(after, last, first);
      ComparisonIsPreorder(after, first, before);
    }
  }

  lemma {:induction false} OrdinaryListsDoNotClash(a: seq<string>, b: seq<string>)
    requires OrdinaryList(a) && OrdinaryList(b)
    ensures !Clash(a, b)
    decreases |a|
  {
    hide Atoi, AllDigits, DecimalValue;
    if a == [] || b == [] {
    } else {
      if a[0] == b[0] {
        OrdinaryListsDoNotClash(a[1..], b[1..]);
      } else if Atoi(a[0]).Some? && Atoi(a[0]) == Atoi(b[0]) {
        NumericAtoi(a[0]);
        NumericAtoi(b[0]);
        DecimalInjective(a[0], b[0]);
      }
    }
  }

  lemma OrdinaryDoNotClash(left: string, right: string)
    ensures Ordinary(left) && Ordinary(right) ==> !VersionsClash(left, right)
  {
    hide CoreParts, LenientAtoi, Clash, Split, Prerelease, OrdinaryList, Atoi, MatchesPattern;
    if Ordinary(left) && Ordinary(right) && VersionsClash(left, right) {
      OrdinaryListsDoNotClash(Split(Prerelease(left), '.'), Split(Prerelease(right), '.'));
    }
  }

  /** On ordinary versions the comparison is a total preorder. */
  lemma ComparisonIsTotalPreorder(a: string, b: string, c: string)
    requires |CoreParts(a)| >= 3 && |CoreParts(b)| >= 3 && |CoreParts(c)| >= 3
    ensures Ordinary(a) && Ordinary(b) && Ordinary(c) ==>
      && CompareVersions(a, a) == 0
      && CompareVersions(a, b) == -CompareVersions(b, a)
      && (CompareVersions(a, b) <= 0 && CompareVersions(b, c) <= 0 ==> CompareVersions(a, c) <= 0)
  {
    hide CompareVersions, CoreParts, Ordinary, VersionsClash;
    ComparisonIsPreorder(a, b, c);
    AntisymmetryIff(a, b);
    OrdinaryDoNotClash(a, b);
  }

  lemma CoreOne()
    ensures Split("1.0.0", '.') == ["1", "0", "0"]
  {
    hide Cut;
    SplitAt("1", '.', "0.0");
    SplitAt("0", '.', "0");
    assert "1" + ['.'] + "0.0" == "1.0.0" && "0" + ['.'] + "0" == "0.0";
  }

  lemma ReleaseOne(prerelease: string)
    requires '+' !in prerelease
    ensures var value := "1.0.0" + ['-'] + prerelease;
      Release(value) == value && CoreParts(value) == ["1", "0", "0"] && Prerelease(value) == prerelease
  {
    hide Cut, Split;
    CutAt("1.0.0", '-', prerelease);
    CoreOne();
  }

  lemma TwoIdentifiers(first: string, second: string)
    requires '.' !in first && '.' !in second
    ensures Split(first + "." + second, '.') == [first, second]
  {
    SplitAt(first, '.', second);
    assert first + "." + second == first + ['.'] + second;
  }

  lemma SmallNumbers()
    ensures Atoi("1") == Atoi("01") == Some(1) && Atoi("3") == Some(3) && Atoi("5") == Some(5)
    ensures IsNumeric("0") && IsNumeric("1")
  {
    assert "1"[..0] == "" && "3"[..0] == "" && "5"[..0] == "" && "0"[..0] == "";
    assert "01"[..1] == "0";
  }

  /** Version 1.0.0 with a prerelease. */
  function One(prerelease: string): string { "1.0.0" + ['-'] + prerelease }

  lemma NoBytes()
    ensures IdentifierBytes("")
  {
  }

  lemma OneMatches(prerelease: string)
    requires prerelease != "" && '+' !in prerelease && IdentifierBytes(prerelease)
    ensures MatchesPattern(One(prerelease)) && |CoreParts(One(prerelease))| == 3
    ensures Prerelease(One(prerelease)) == prerelease
  {
    hide Cut, Split, IdentifierBytes, AllDigits;
    ReleaseOne(prerelease);
    SmallNumbers();
    NoBytes();
  }

  lemma OneCompares(a: string, b: string)
    requires '+' !in a && '+' !in b
    ensures |CoreParts(One(a))| == |CoreParts(One(b))| == 3
    ensures CompareVersions(One(a), One(b)) == ComparePrerelease(a, b)
  {
    hide Cut, Split, LenientAtoi, ComparePrerelease;
    ReleaseOne(a);
    ReleaseOne(b);
  }

  lemma CircularPrereleases()
    ensures ComparePrerelease("01.5", "1.5") == ComparePrerelease("1.3", "01.5") == 1
    ensures ComparePrerelease("1.5", "01.5") == ComparePrerelease("01.5", "1.3") == 1
    ensures ComparePrerelease("1.3", "1.5") == -1
  {
    hide Atoi, Split, Less;
    assert "1.5" == "1" + "." + "5" && "01.5" == "01" + "." + "5" && "1.3" == "1" + "." + "3";
    TwoIdentifiers("1", "5");
    TwoIdentifiers("01", "5");
    TwoIdentifiers("1", "3");
    SmallNumbers();
    var a, c := ["1", "5"], ["1", "3"];
    assert CompareIdentifiers(c, a) == -1 by { assert c[1..] == ["3"] && a[1..] == ["5"]; }
  }

  lemma ExampleBytes()
    ensures IdentifierBytes("1.5") && IdentifierBytes("01.5") && IdentifierBytes("1.3")
    ensures IdentifierBytes("0") && IdentifierBytes("1") && IdentifierBytes("01") && IdentifierBytes("-5")
  {
    assert "0"[1..] == "" && "1"[1..] == "" && "01"[1..] == "1" && "-5"[1..] == "5";
    assert "01.5"[1..] == "1.5";
    assert "1.5"[1..] == ".5" && ".5"[1..] == "5" && "5"[1..] == "";
    assert "1.3"[1..] == ".3" && ".3"[1..] == "3" && "3"[1..] == "";
  }

  /** Three versions the pattern accepts, 1.0.0-1.5, 1.0.0-01.5 and 1.0.0-1.3, each reported
      higher than the one before, the last lower than the first. */
  lemma CircularExample() returns (first: string, second: string, third: string)
    ensures first == One("1.5") && second == One("01.5") && third == One("1.3")
    ensures MatchesPattern(first) && MatchesPattern(second) && MatchesPattern(third)
    ensures |CoreParts(first)| == |CoreParts(second)| == |CoreParts(third)| == 3
    ensures CompareVersions(second, first) == CompareVersions(third, second) == 1
    ensures CompareVersions(third, first) == -1
  {
    hide MatchesPattern, CompareVersions, ComparePrerelease, CoreParts, One, IdentifierBytes, Prerelease;
    ExampleBytes();
    OneMatches("1.5");
    OneMatches("01.5");
    OneMatches("1.3");
    OneCompares("01.5", "1.5");
    OneCompares("1.3", "01.5");
    OneCompares("1.3", "1.5");
    CircularPrereleases();
    first, second, third := One("1.5"), One("01.5"), One("1.3");
  }

  /** Each of the three clashes with the one before. */
  lemma CircularClashes()
    ensures VersionsClash(One("1.5"), One("01.5")) && VersionsClash(One("01.5"), One("1.3"))
  {
    hide CompareVersions, CoreParts, One, MatchesPattern, VersionsClash;
    var first, second, third := CircularExample();
    AntisymmetryIff(first, second);
    AntisymmetryIff(second, third);
    OneCompares("1.5", "01.5");
    OneCompares("01.5", "1.3");
    SmallNumbers();
    CircularPrereleases();
  }

  /** A leading zero: each of 1.0.0-01 and 1.0.0-1 is reported higher than the other. */
  lemma LeadingZeroExample()
    ensures MatchesPattern(One("01")) && MatchesPattern(One("1"))
    ensures |CoreParts(One("01"))| == |CoreParts(One("1"))| == 3
    ensures CompareVersions(One("01"), One("1")) == CompareVersions(One("1"), One("01")) == 1
  {
    hide MatchesPattern, CompareVersions, CoreParts, One, IdentifierBytes, Prerelease, Atoi;
    ExampleBytes();
    OneMatches("01");
    OneMatches("1");
    OneCompares("01", "1");
    OneCompares("1", "01");
    SmallNumbers();
    assert Split("01", '.') == ["01"] && Split("1", '.') == ["1"];
  }

  lemma SameCore(a: string, b: string)
    requires MatchesPattern(One(a)) && MatchesPattern(One(b)) && '+' !in a && '+' !in b
    ensures FaceValue(One(a)).core == FaceValue(One(b)).core
  {
    hide MatchesPattern, Cut, Split;
    ReleaseOne(a);
    ReleaseOne(b);
  }

  lemma HyphenPrereleases()
    ensures ComparePrerelease("-5", "0") == -1 && PrereleasePrecedes("0", "-5")
  {
    assert Split("-5", '.') == ["-5"] && Split("0", '.') == ["0"];
    assert Atoi("0") == Some(0) by { assert "0"[..0] == ""; }
    assert Atoi("-5") == Some(-5) by { assert "-5"[1..] == "5" && "5"[..0] == ""; }
    assert !AllDigits("-5") by { assert "-5"[..1] == "-"; }
    assert AllDigits("0") by { assert "0"[..0] == ""; }
    ListPrecedesFirst(["0"], ["-5"]);
  }

  /** A hyphen before digits: "-5" is a word to Semantic Versioning and a number to the
      catalog, which puts 1.0.0--5 below 1.0.0-0. */
  lemma HyphenExample()
    ensures MatchesPattern(One("-5")) && MatchesPattern(One("0"))
    ensures |CoreParts(One("-5"))| == |CoreParts(One("0"))| == 3
    ensures CompareVersions(One("-5"), One("0")) == -1
    ensures Precedes(FaceValue(One("0")), FaceValue(One("-5")))
  {
    hide MatchesPattern, CompareVersions, ComparePrerelease, CoreParts, IdentifierBytes, Prerelease, PrereleasePrecedes;
    ExampleBytes();
    OneMatches("-5");
    OneMatches("0");
    OneCompares("-5", "0");
    HyphenPrereleases();
    assert FaceValue(One("0")).core == FaceValue(One("-5")).core by { SameCore("0", "-5"); }
  }
}
