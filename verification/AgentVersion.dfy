/** internal/agentupdate/version.go: when an offered version is an upgrade. */
module AgentVersion {
  import opened GoStrings

  datatype Parsed = Parsed(core: seq<int>, prerelease: string)

  /** The pattern `^[0-9]+\.[0-9]+\.[0-9]+(?:-[0-9A-Za-z.-]+)?$` of manifest.go. */
  predicate MatchesVersionPattern(value: string) {
    var (core, prerelease) := Cut(value, '-');
    var parts := Split(core, '.');
    && |parts| == 3
    && IsNumeric(parts[0]) && IsNumeric(parts[1]) && IsNumeric(parts[2])
    && ('-' in value ==> prerelease != "")
    && IdentifierBytes(prerelease)
  }

  lemma {:induction false} DigitsOnly(s: string, c: char)
    requires AllDigits(s) && !IsDigit(c)
    ensures c !in s
  {
    if s == "" {
    } else {
      DigitsOnly(s[..|s| - 1], c);
      assert s == s[..|s| - 1] + [s[|s| - 1]];
    }
  }

  lemma {:induction false} IdentifierBytesOnly(s: string, c: char)
    requires IdentifierBytes(s) && !IdentifierByte(c)
    ensures c !in s
  {
    if s == "" {
    } else {
      IdentifierBytesOnly(s[1..], c);
      assert s == [s[0]] + s[1..];
    }
  }

  /** A version is safe to use in a file name. */
  lemma VersionHasNoSlash(value: string)
    ensures MatchesVersionPattern(value) ==> '/' !in value
  {
    hide AllDigits, IdentifierBytes;
    if MatchesVersionPattern(value) {
      var (core, prerelease) := Cut(value, '-');
      var parts := Split(core, '.');
      forall part | part in parts
        ensures '/' !in part
      {
        assert part == parts[0] || part == parts[1] || part == parts[2];
        DigitsOnly(part, '/');
      }
      SplitCovers(core, '.', '/');
      IdentifierBytesOnly(prerelease, '/');
    }
  }

  /** `parseVersion`: a part that does not fit an int makes the version unusable. */
  function Parse(value: string): (r: Option<Parsed>)
    ensures r.Some? ==> |r.value.core| == 3 && MatchesVersionPattern(value)
  {
    if !MatchesVersionPattern(value) then None
    else
      var (core, prerelease) := Cut(value, '-');
      var parts := Split(core, '.');
      var major, minor, patch := Atoi(parts[0]), Atoi(parts[1]), Atoi(parts[2]);
      if major.None? || minor.None? || patch.None? then None
      else Some(Parsed([major.value, minor.value, patch.value], prerelease))
  }

  /** Lexicographic order on the three numbers. */
  predicate CoreLess(a: seq<int>, b: seq<int>)
    requires |a| == 3 && |b| == 3
  {
    a[0] < b[0] || (a[0] == b[0] && (a[1] < b[1] || (a[1] == b[1] && a[2] < b[2])))
  }

  /** A release is newer than each of its prereleases; prereleases compare as strings. */
  predicate PrereleaseOlder(a: string, b: string) {
    a != "" && (b == "" || Less(a, b))
  }

  predicate Older(a: Parsed, b: Parsed)
    requires |a.core| == 3 && |b.core| == 3
  {
    CoreLess(a.core, b.core) || (a.core == b.core && PrereleaseOlder(a.prerelease, b.prerelease))
  }

  /** `target` is offered to an agent running `current`. */
  predicate IsUpgrade(current: string, target: string) {
    var a, b := Parse(current), Parse(target);
    a.Some? && b.Some? && Older(a.value, b.value)
  }

  lemma UpgradeIrreflexive(v: string)
    ensures !IsUpgrade(v, v)
  {
    if Parse(v).Some? {
      LessIrreflexive(Parse(v).value.prerelease);
    }
  }

  lemma OlderTransitive(a: Parsed, b: Parsed, c: Parsed)
    requires |a.core| == 3 && |b.core| == 3 && |c.core| == 3
    requires Older(a, b) && Older(b, c)
    ensures Older(a, c)
  {
    if Less(a.prerelease, b.prerelease) && Less(b.prerelease, c.prerelease) {
      LessTransitive(a.prerelease, b.prerelease, c.prerelease);
    }
  }

  lemma UpgradeTransitive(a: string, b: string, c: string)
    ensures IsUpgrade(a, b) && IsUpgrade(b, c) ==> IsUpgrade(a, c)
  {
    if IsUpgrade(a, b) && IsUpgrade(b, c) {
      OlderTransitive(Parse(a).value, Parse(b).value, Parse(c).value);
    }
  }

  /** Versions that neither upgrades to denote the same release: the order is total on them. */
  lemma UpgradeTotal(a: string, b: string)
    requires Parse(a).Some? && Parse(b).Some?
    requires !IsUpgrade(a, b) && !IsUpgrade(b, a)
    ensures Parse(a) == Parse(b)
  {
    var x, y := Parse(a).value, Parse(b).value;
    assert x.core == [x.core[0], x.core[1], x.core[2]];
    assert y.core == [y.core[0], y.core[1], y.core[2]];
    LessTotal(x.prerelease, y.prerelease);
  }

  // ----- What an upgrade is, in the numbers that are written

  /** A version as it is written: three numerals, and a prerelease or none. */
  datatype Release = Release(major: string, minor: string, patch: string, prerelease: string)
  {
    /** Numerals that fit an int, and the bytes that the pattern allows. */
    predicate Valid() {
      && IsNumeric(major) && IsNumeric(minor) && IsNumeric(patch) && IdentifierBytes(prerelease)
      && DecimalValue(major) <= MAXIMUM_INT && DecimalValue(minor) <= MAXIMUM_INT && DecimalValue(patch) <= MAXIMUM_INT
    }

    function Core(): string { major + ['.'] + (minor + ['.'] + patch) }

    function Text(): string { if prerelease == "" then Core() else Core() + ['-'] + prerelease }
  }

  /** The first number that differs is smaller; with equal numbers, a prerelease is below the
      release, and below each prerelease that is larger in the order of bytes. */
  predicate Lower(a: Release, b: Release)
    requires a.Valid() && b.Valid()
  {
    var x, y := DecimalValue(a.major), DecimalValue(b.major);
    if x != y then x < y
    else
      var m, n := DecimalValue(a.minor), DecimalValue(b.minor);
      if m != n then m < n
      else
        var p, q := DecimalValue(a.patch), DecimalValue(b.patch);
        if p != q then p < q
        else a.prerelease != "" && (b.prerelease == "" || Less(a.prerelease, b.prerelease))
  }

  lemma {:induction false} FirstIsDigit(s: string)
    requires IsNumeric(s)
    ensures !HasSign(s)
    decreases |s|
  {
    if |s| == 1 {
    } else {
      FirstIsDigit(s[..|s| - 1]);
    }
  }

  lemma NumeralConverts(s: string)
    requires IsNumeric(s) && DecimalValue(s) <= MAXIMUM_INT
    ensures Atoi(s) == Some(DecimalValue(s))
  {
    FirstIsDigit(s);
  }

  /** The text can be taken apart again. */
  lemma TextSplits(r: Release)
    requires r.Valid()
    ensures Cut(r.Text(), '-') == (r.Core(), r.prerelease) && ('-' in r.Text() <==> r.prerelease != "")
    ensures Split(r.Core(), '.') == [r.major, r.minor, r.patch]
  {
    hide Cut, Split, AllDigits, IdentifierBytes, DecimalValue;
    DigitsOnly(r.major, '.');
    DigitsOnly(r.minor, '.');
    DigitsOnly(r.patch, '.');
    SplitAt(r.major, '.', r.minor + ['.'] + r.patch);
    SplitAt(r.minor, '.', r.patch);
    SplitWhole(r.patch, '.');
    DigitsOnly(r.major, '-');
    DigitsOnly(r.minor, '-');
    DigitsOnly(r.patch, '-');
    CutAt(r.Core(), '-', r.prerelease);
  }

  lemma TextParses(r: Release)
    requires r.Valid()
    ensures Parse(r.Text()) == Some(Parsed([DecimalValue(r.major), DecimalValue(r.minor), DecimalValue(r.patch)], r.prerelease))
  {
    hide Cut, Split, AllDigits, IdentifierBytes, DecimalValue, Atoi;
    TextSplits(r);
    NumeralConverts(r.major);
    NumeralConverts(r.minor);
    NumeralConverts(r.patch);
  }

  /** An offered version is an upgrade exactly when the running one is lower. */
  lemma UpgradeMeaning(current: Release, target: Release)
    requires current.Valid() && target.Valid()
    ensures IsUpgrade(current.Text(), target.Text()) <==> Lower(current, target)
  {
    hide Parse, DecimalValue, AllDigits, Less, Release.Text;
    TextParses(current);
    TextParses(target);
  }

  lemma Fits(s: string)
    requires IsNumeric(s) && Atoi(s).Some?
    ensures DecimalValue(s) <= MAXIMUM_INT
  {
    FirstIsDigit(s);
  }

  lemma ThreeParts(core: string)
    requires |Split(core, '.')| == 3
    ensures var parts := Split(core, '.'); core == parts[0] + ['.'] + (parts[1] + ['.'] + parts[2])
  {
    var (a, rest) := Cut(core, '.');
    var (b, last) := Cut(rest, '.');
    assert Split(core, '.') == [a] + Split(rest, '.');
    assert Split(rest, '.') == [b] + Split(last, '.');
    assert '.' !in last;
  }

  lemma Written(value: string) returns (r: Release)
    requires Parse(value).Some?
    ensures r.Valid() && r.Text() == value
  {
    hide Split, AllDigits, IdentifierBytes, DecimalValue;
    var (core, prerelease) := Cut(value, '-');
    var parts := Split(core, '.');
    r := Release(parts[0], parts[1], parts[2], prerelease);
    ThreeParts(core);
    Fits(parts[0]);
    Fits(parts[1]);
    Fits(parts[2]);
  }

  /** Every other text is neither an upgrade nor upgraded. */
  lemma UpgradeIsWritten(current: string, target: string)
    ensures IsUpgrade(current, target) ==> exists a: Release, b: Release ::
      a.Valid() && b.Valid() && a.Text() == current && b.Text() == target && Lower(a, b)
  {
    hide Parse, Older, Release.Valid, Release.Text, Lower;
    if IsUpgrade(current, target) {
      var a := Written(current);
      var b := Written(target);
      UpgradeMeaning(a, b);
    }
  }

  /** The loop of `parseVersion`, filling the fixed array of three numbers. */
  method ParseVersion(value: string) returns (parsed: array<int>, prerelease: string, ok: bool)
    ensures parsed.Length == 3 && fresh(parsed)
    ensures ok == Parse(value).Some?
    ensures ok ==> Parse(value) == Some(Parsed(parsed[..], prerelease))
    ensures !ok ==> prerelease == ""
  {
    hide Atoi, IdentifierBytes, IsNumeric;
    parsed := new int[3];
    prerelease, ok := "", false;
    if !MatchesVersionPattern(value) {
      return;
    }
    var (core, suffix) := Cut(value, '-');
    var parts := Split(core, '.');
    var index := 0;
    while index < |parts|
      invariant 0 <= index <= 3
      invariant forall i :: 0 <= i < index ==> Atoi(parts[i]) == Some(parsed[i])
    {
      var number := Atoi(parts[index]);
      if number.None? {
        assert index == 0 || index == 1 || index == 2;
        return;
      }
      parsed[index] := number.value;
      index := index + 1;
    }
    assert parsed[..] == [parsed[0], parsed[1], parsed[2]];
    prerelease, ok := suffix, true;
  }

  /** The comparison loop of `IsUpgrade` over two parsed versions. */
  method ComputeOlder(currentParts: array<int>, currentPrerelease: string,
                      targetParts: array<int>, targetPrerelease: string) returns (r: bool)
    requires currentParts.Length == 3 && targetParts.Length == 3
    ensures r == Older(Parsed(currentParts[..], currentPrerelease), Parsed(targetParts[..], targetPrerelease))
  {
    var index := 0;
    while index < currentParts.Length
      invariant 0 <= index <= 3
      invariant forall i :: 0 <= i < index ==> currentParts[i] == targetParts[i]
    {
      if targetParts[index] != currentParts[index] {
        return targetParts[index] > currentParts[index];
      }
      index := index + 1;
    }
    assert currentParts[..] == targetParts[..];
    LessIrreflexive(currentPrerelease);
    if currentPrerelease == targetPrerelease || currentPrerelease == "" {
      return false;
    }
    if targetPrerelease == "" {
      return true;
    }
    return Less(currentPrerelease, targetPrerelease);
  }

  /** `IsUpgrade` as the agent runs it. */
  method ComputeIsUpgrade(current: string, target: string) returns (r: bool)
    ensures r == IsUpgrade(current, target)
  {
    var currentParts, currentPrerelease, currentOk := ParseVersion(current);
    if !currentOk {
      return false;
    }
    var targetParts, targetPrerelease, targetOk := ParseVersion(target);
    if !targetOk {
      return false;
    }
    r := ComputeOlder(currentParts, currentPrerelease, targetParts, targetPrerelease);
  }
}
