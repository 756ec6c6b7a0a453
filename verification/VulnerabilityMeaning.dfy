/** What the comparison of observed versions means for the texts that are written, and what
    an affected range is in numbers. */
module VulnerabilityMeaning {
  import opened GoStrings
  import opened VulnerabilityVersion

  // ----- Texts as runs

  predicate IsRun(run: string) { run != "" && forall i :: 0 <= i < |run| ==> IsDigit(run[i]) == IsDigit(run[0]) }

  /** Runs of digits and runs of other bytes, in turn. */
  predicate Alternating(runs: seq<string>) {
    runs == [] ||
    (&& IsRun(runs[0])
     && (|runs| > 1 ==> runs[1] != "" && IsDigit(runs[1][0]) != IsDigit(runs[0][0]))
     && Alternating(runs[1..]))
  }

  function Concat(runs: seq<string>): string { if runs == [] then "" else runs[0] + Concat(runs[1..]) }

  /** Every text is made of such runs. */
  function RunsOf(value: string): (runs: seq<string>)
    ensures Alternating(runs) && Concat(runs) == value
    decreases |value|
  {
    if value == "" then []
    else
      var end := RunLength(value);
      var runs := [value[..end]] + RunsOf(value[end..]);
      FirstRun(value);
      runs
  }

  lemma {:induction false} RunEnds(value: string)
    requires value != ""
    ensures var end := RunLength(value); end < |value| ==> IsDigit(value[end]) != IsDigit(value[0])
    decreases |value|
  {
    if |value| == 1 || IsDigit(value[1]) != IsDigit(value[0]) {
    } else {
      RunEnds(value[1..]);
    }
  }

  lemma FirstRun(value: string)
    requires value != ""
    ensures var end, rest := RunLength(value), RunsOf(value[RunLength(value)..]);
      && Alternating([value[..end]] + rest) && Concat([value[..end]] + rest) == value
    decreases |value|, 0
  {
    var end := RunLength(value);
    var run, tail := value[..end], value[end..];
    var rest := RunsOf(tail);
    forall i | 0 <= i < end
      ensures IsDigit(run[i]) == IsDigit(run[0])
    {
      RunIsUniform(value, i);
    }
    RunEnds(value);
    if rest != [] {
      assert Concat(rest) == rest[0] + Concat(rest[1..]);
      assert tail[0] == rest[0][0];
    }
    assert ([run] + rest)[1..] == rest;
    assert value == run + tail;
  }

  /** A saturated number for a run of digits; any other run as it is, unless it is a
      separator. */
  function Value(run: string): seq<Part>
    requires IsRun(run)
  {
    if IsDigit(run[0]) then
      UniformDigits(run);
      [Number(Saturated(DecimalValue(run)))]
    else if run == "." || run == "-" || run == "_" then []
    else [Text(run)]
  }

  function Values(runs: seq<string>): seq<Part>
    requires Alternating(runs)
  {
    if runs == [] then [] else Value(runs[0]) + Values(runs[1..])
  }

  lemma FirstOfRuns(runs: seq<string>)
    requires Alternating(runs) && runs != []
    ensures var value, end := Concat(runs), |runs[0]|;
      && value != "" && value[..end] == runs[0] && value[end..] == Concat(runs[1..]) && value[0] == runs[0][0]
      && RunLength(value) == end && forall i :: 0 <= i < end ==> IsDigit(value[i]) == IsDigit(value[0])
  {
    hide IsDigit;
    var value, end := Concat(runs), |runs[0]|;
    if |runs| > 1 {
      assert Concat(runs[1..]) == runs[1] + Concat(runs[1..][1..]);
      assert value[end] == runs[1][0];
    }
    assert forall i :: 0 <= i < end ==> value[i] == runs[0][i];
    RunLengthIs(value, end);
  }

  lemma NoRuns()
    ensures Alternating([]) && Concat([]) == "" && Values([]) == []
  {
  }

  lemma FirstParts(runs: seq<string>)
    requires Alternating(runs) && runs != []
    ensures Parts(Concat(runs)) == Value(runs[0]) + Parts(Concat(runs[1..]))
  {
    hide IsDigit, DecimalValue, AllDigits, Concat, RunLength, Parts;
    FirstOfRuns(runs);
    var value, end := Concat(runs), |runs[0]|;
    PartsUnfold(value, end, []);
    assert [] + Parts(value) == Parts(value) && [] + Parts(value[end..]) == Parts(value[end..]);
  }

  /** The parser reads a text as the values of its runs. */
  lemma {:induction false} PartsOfRuns(runs: seq<string>)
    requires Alternating(runs)
    ensures Parts(Concat(runs)) == Values(runs)
    decreases |runs|
  {
    hide Concat, Parts, Value;
    if runs == [] {
      NoRuns();
      NoParts();
    } else {
      FirstParts(runs);
      PartsOfRuns(runs[1..]);
    }
  }

  // ----- The order, in the values of the runs

  /** A word is below every number; words compare in the order of bytes. */
  predicate PartLess(a: Part, b: Part) {
    match (a, b)
    case (Number(x), Number(y)) => x < y
    case (Text(_), Number(_)) => true
    case (Number(_), Text(_)) => false
    case (Text(x), Text(y)) => Less(x, y)
  }

  predicate DecidesAt(a: seq<Part>, b: seq<Part>, k: nat)
    requires k <= |a| && k < |b|
  {
    k == |a| || PartLess(a[k], b[k])
  }

  /** The first difference decides; a longer list is above its own beginning. */
  ghost predicate ListLess(a: seq<Part>, b: seq<Part>) {
    exists k :: 0 <= k <= |a| && k < |b| && a[..k] == b[..k] && DecidesAt(a, b, k)
  }

  /** What is left without the zeros at the end. */
  predicate IsSignificant(all: seq<Part>, kept: seq<Part>) {
    && kept <= all
    && (forall i :: |kept| <= i < |all| ==> all[i] == Number(0))
    && (kept != [] ==> kept[|kept| - 1] != Number(0))
  }

  lemma {:induction false} TrimmedIsSignificant(all: seq<Part>)
    ensures IsSignificant(all, Trimmed(all))
    decreases |all|
  {
    if all == [] || all[|all| - 1] != Number(0) {
    } else {
      TrimmedIsSignificant(all[..|all| - 1]);
    }
  }

  lemma {:induction false} SignificantIsTrimmed(all: seq<Part>, kept: seq<Part>)
    requires IsSignificant(all, kept)
    ensures kept == Trimmed(all)
    decreases |all|
  {
    if |kept| == |all| {
      assert kept == all;
    } else {
      SignificantIsTrimmed(all[..|all| - 1], kept);
    }
  }

  lemma PartSign(a: Part, b: Part)
    ensures ComparePart(a, b) < 0 <==> PartLess(a, b)
    ensures !PartLess(a, a)
  {
    hide Less;
    if a.Text? && b.Text? && Less(b.text, a.text) {
      LessAsymmetric(b.text, a.text);
    }
    if a.Text? {
      LessIrreflexive(a.text);
    }
  }

  lemma EmptyIsLeast(p: Part)
    requires p.Text? ==> p.text != ""
    ensures PartLess(MISSING, p) && !PartLess(p, MISSING)
  {
  }

  lemma DecidedHere(a: seq<Part>, b: seq<Part>, i: nat)
    requires NoEmptyText(a) && NoEmptyText(b) && i <= |a| && i <= |b| && (i < |a| && i < |b| ==> a[i] != b[i])
    ensures CompareFrom(a, b, i) < 0 <==> i < |b| && DecidesAt(a, b, i)
  {
    hide Less;
    PartOrder(PartAt(a, i), PartAt(b, i), MISSING);
    PartSign(PartAt(a, i), PartAt(b, i));
    if i < |a| {
      assert a[i] in a;
      EmptyIsLeast(a[i]);
    }
    if i < |b| {
      assert b[i] in b;
      EmptyIsLeast(b[i]);
    }
  }

  lemma PrefixPoint(a: seq<Part>, b: seq<Part>, k: nat, i: nat)
    requires k <= |a| && k <= |b| && a[..k] == b[..k]
    ensures i < k ==> a[i] == b[i]
  {
    if i < k {
      assert a[..k][i] == b[..k][i];
    }
  }

  lemma OnlyHere(a: seq<Part>, b: seq<Part>, i: nat)
    requires i <= |a| && i <= |b| && a[..i] == b[..i] && (i < |a| && i < |b| ==> a[i] != b[i])
    ensures ListLess(a, b) <==> i < |b| && DecidesAt(a, b, i)
  {
    hide PartLess;
    forall k | 0 <= k <= |a| && k < |b| && a[..k] == b[..k] && DecidesAt(a, b, k)
      ensures k == i
    {
      PrefixPoint(a, b, k, i);
      PrefixPoint(a, b, i, k);
      if k < i {
        PartSign(a[k], b[k]);
      }
    }
  }

  lemma {:induction false} CompareSign(a: seq<Part>, b: seq<Part>, i: nat)
    requires NoEmptyText(a) && NoEmptyText(b) && i <= |a| && i <= |b| && a[..i] == b[..i]
    ensures CompareFrom(a, b, i) < 0 <==> ListLess(a, b)
    decreases |a| + |b| - i
  {
    hide ComparePart, PartLess, NoEmptyText;
    if i < |a| && i < |b| && a[i] == b[i] {
      PartOrder(a[i], b[i], MISSING);
      assert a[..i + 1] == a[..i] + [a[i]] && b[..i + 1] == b[..i] + [b[i]];
      CompareSign(a, b, i + 1);
      CompareStep(a, b, i);
    } else {
      DecidedHere(a, b, i);
      OnlyHere(a, b, i);
    }
  }

  /** For all texts: the comparison is negative exactly when the significant values of the
      left are below those of the right, and zero exactly when they are the same. */
  lemma CompareMeaning(left: string, right: string, a: seq<string>, b: seq<string>, x: seq<Part>, y: seq<Part>)
    requires Alternating(a) && Alternating(b) && Clean(left) == Concat(a) && Clean(right) == Concat(b)
    requires IsSignificant(Values(a), x) && IsSignificant(Values(b), y)
    ensures CompareVersions(left, right) < 0 <==> ListLess(x, y)
    ensures CompareVersions(left, right) > 0 <==> ListLess(y, x)
    ensures CompareVersions(left, right) == 0 <==> x == y
  {
    hide Parts, Clean, Values, Alternating, Concat, CompareFrom, ListLess, IsSignificant, Trimmed;
    PartsOfRuns(a);
    PartsOfRuns(b);
    SignificantIsTrimmed(Values(a), x);
    SignificantIsTrimmed(Values(b), y);
    TrimmedNoEmptyText(Parts(Clean(left)));
    TrimmedNoEmptyText(Parts(Clean(right)));
    CompareSign(x, y, 0);
    CompareSign(y, x, 0);
    CompareIsTotalPreorder(left, right, left);
  }

  // ----- Numerals joined by dots

  predicate AreNumerals(numerals: seq<string>) {
    && numerals != []
    && forall i :: 0 <= i < |numerals| ==> IsNumeric(numerals[i]) && DecimalValue(numerals[i]) <= MAXIMUM_INT
  }

  function Dotted(numerals: seq<string>): string
    requires numerals != []
  {
    if |numerals| == 1 then numerals[0] else numerals[0] + ['.'] + Dotted(numerals[1..])
  }

  function Numbers(numerals: seq<string>): seq<int>
    requires AreNumerals(numerals)
  {
    seq(|numerals|, i requires 0 <= i < |numerals| => DecimalValue(numerals[i]))
  }

  /** A number that is not written counts as zero. */
  function At(numbers: seq<int>, k: nat): int { if k < |numbers| then numbers[k] else 0 }

  predicate AgreeBelow(x: seq<int>, y: seq<int>, k: nat) { forall j :: 0 <= j < k ==> At(x, j) == At(y, j) }

  /** The first number that differs is smaller. */
  ghost predicate Below(x: seq<int>, y: seq<int>) {
    exists k: nat :: AgreeBelow(x, y, k) && At(x, k) < At(y, k)
  }

  ghost predicate Same(x: seq<int>, y: seq<int>) { forall k: nat :: At(x, k) == At(y, k) }

  function DottedRuns(numerals: seq<string>): seq<string>
    requires numerals != []
  {
    if |numerals| == 1 then [numerals[0]] else [numerals[0]] + ["."] + DottedRuns(numerals[1..])
  }

  function AsParts(numbers: seq<int>): seq<Part> {
    seq(|numbers|, i requires 0 <= i < |numbers| => Number(numbers[i]))
  }

  lemma {:induction false} NumeralDigits(s: string)
    requires AllDigits(s)
    ensures forall i :: 0 <= i < |s| ==> IsDigit(s[i])
    decreases |s|
  {
    if s == "" {
    } else {
      NumeralDigits(s[..|s| - 1]);
    }
  }

  lemma NumeralValue(s: string)
    requires IsNumeric(s) && DecimalValue(s) <= MAXIMUM_INT
    ensures IsRun(s) && IsDigit(s[0]) && Value(s) == [Number(DecimalValue(s))]
    ensures IsRun(".") && Value(".") == []
  {
    hide DecimalValue;
    NumeralDigits(s);
  }

  lemma RunBefore(run: string, rest: seq<string>)
    requires IsRun(run) && Alternating(rest) && (rest != [] ==> IsDigit(rest[0][0]) != IsDigit(run[0]))
    ensures var runs := [run] + rest;
      && Alternating(runs) && Concat(runs) == run + Concat(rest) && Values(runs) == Value(run) + Values(rest)
  {
    hide IsDigit, Value;
    assert ([run] + rest)[1..] == rest;
  }

  lemma FirstNumber(numerals: seq<string>)
    requires AreNumerals(numerals)
    ensures AsParts(Numbers(numerals)) ==
      [Number(DecimalValue(numerals[0]))] +
        if |numerals| == 1 then [] else AsParts(Numbers(numerals[1..]))
  {
    hide DecimalValue;
  }

  lemma {:induction false} DottedIsRuns(numerals: seq<string>)
    requires AreNumerals(numerals)
    ensures var runs := DottedRuns(numerals);
      && runs != [] && runs[0] == numerals[0] && Alternating(runs) && Concat(runs) == Dotted(numerals)
      && Values(runs) == AsParts(Numbers(numerals))
    decreases |numerals|
  {
    hide AllDigits, DecimalValue, Value, IsRun, Alternating, Concat, Values, AsParts, Numbers;
    var first := numerals[0];
    NumeralValue(first);
    FirstNumber(numerals);
    if |numerals| == 1 {
      NoRuns();
      RunBefore(first, []);
      assert [first] + [] == [first] && first + "" == first;
    } else {
      DottedIsRuns(numerals[1..]);
      NumeralValue(numerals[1]);
      var rest := DottedRuns(numerals[1..]);
      RunBefore(".", rest);
      RunBefore(first, ["."] + rest);
      assert DottedRuns(numerals) == [first] + (["."] + rest);
      assert Dotted(numerals) == first + ("." + Concat(rest));
      assert [] + Values(rest) == Values(rest);
    }
  }

  predicate DigitOrDot(c: char) { IsDigit(c) || c == '.' }

  lemma {:induction false} DottedBytes(numerals: seq<string>)
    requires AreNumerals(numerals)
    ensures var text := Dotted(numerals);
      && text != "" && IsDigit(text[0]) && IsDigit(text[|text| - 1])
      && forall i :: 0 <= i < |text| ==> DigitOrDot(text[i])
    decreases |numerals|
  {
    hide DecimalValue;
    NumeralDigits(numerals[0]);
    if |numerals| == 1 {
    } else {
      DottedBytes(numerals[1..]);
    }
  }

  /** Cleaning leaves it as it is. */
  lemma DottedIsClean(numerals: seq<string>)
    requires AreNumerals(numerals)
    ensures Clean(Dotted(numerals)) == Dotted(numerals)
  {
    hide Dotted, DecimalValue, AllDigits;
    var text := Dotted(numerals);
    DottedBytes(numerals);
    assert TrimSpace(text) == text;
    assert Lower(text) == text;
  }

  /** The numbers behind position `m` are zeros, and the one before it is not. */
  predicate EndsAt(x: seq<int>, m: nat) {
    m <= |x| && (forall i :: m <= i < |x| ==> x[i] == 0) && (m > 0 ==> x[m - 1] != 0)
  }

  /** The significant numbers. */
  lemma {:induction false} CountSignificant(numbers: seq<int>) returns (m: nat)
    ensures EndsAt(numbers, m)
    decreases |numbers|
  {
    m := |numbers|;
    if m > 0 && numbers[m - 1] == 0 {
      m := CountSignificant(numbers[..m - 1]);
    }
  }

  lemma FirstPositive(numbers: seq<int>, from: nat, end: nat) returns (k: nat)
    requires from < end <= |numbers| && numbers[end - 1] != 0 && forall i :: 0 <= i < |numbers| ==> numbers[i] >= 0
    ensures from <= k < end && numbers[k] > 0 && forall i :: from <= i < k ==> numbers[i] == 0
  {
    k := from;
    while numbers[k] == 0
      invariant from <= k < end
      invariant forall i :: from <= i < k ==> numbers[i] == 0
      decreases end - k
    {
      k := k + 1;
    }
  }

  predicate NoneNegative(x: seq<int>) { forall i :: 0 <= i < |x| ==> x[i] >= 0 }

  lemma SamePrefix(x: seq<int>, y: seq<int>, m: nat, n: nat, k: nat)
    requires k <= m <= |x| && k <= n <= |y| && AsParts(x[..m])[..k] == AsParts(y[..n])[..k]
    ensures forall j :: 0 <= j < k ==> x[j] == y[j]
  {
    forall j | 0 <= j < k
      ensures x[j] == y[j]
    {
      assert AsParts(x[..m])[..k][j] == Number(x[j]) && AsParts(y[..n])[..k][j] == Number(y[j]);
    }
  }

  lemma ListLessIsBelow(x: seq<int>, y: seq<int>, m: nat, n: nat)
    requires NoneNegative(x) && NoneNegative(y) && EndsAt(x, m) && EndsAt(y, n)
    ensures ListLess(AsParts(x[..m]), AsParts(y[..n])) ==> Below(x, y)
  {
    var a, b := AsParts(x[..m]), AsParts(y[..n]);
    if ListLess(a, b) {
      var k :| 0 <= k <= |a| && k < |b| && a[..k] == b[..k] && DecidesAt(a, b, k);
      SamePrefix(x, y, m, n, k);
      var j := k;
      if k == m {
        j := FirstPositive(y, m, n);
      }
      assert AgreeBelow(x, y, j) && At(x, j) < At(y, j);
    }
  }

  lemma BelowIsListLess(x: seq<int>, y: seq<int>, m: nat, n: nat)
    requires NoneNegative(x) && NoneNegative(y) && EndsAt(x, m) && EndsAt(y, n)
    ensures Below(x, y) ==> ListLess(AsParts(x[..m]), AsParts(y[..n]))
  {
    var a, b := AsParts(x[..m]), AsParts(y[..n]);
    if Below(x, y) {
      var k: nat :| AgreeBelow(x, y, k) && At(x, k) < At(y, k);
      assert k < n by { assert At(x, k) >= 0; }
      var j := if k < m then k else m;
      forall i | 0 <= i < j
        ensures a[i] == b[i]
      {
        assert At(x, i) == At(y, i);
      }
      assert a[..j] == b[..j];
      assert DecidesAt(a, b, j);
    }
  }

  lemma SignificantNumbers(numbers: seq<int>, m: nat)
    requires EndsAt(numbers, m)
    ensures IsSignificant(AsParts(numbers), AsParts(numbers[..m]))
  {
  }

  lemma NotLonger(x: seq<int>, y: seq<int>, m: nat, n: nat)
    requires EndsAt(x, m) && EndsAt(y, n) && Same(x, y)
    ensures m <= n
  {
    assert m > 0 ==> At(x, m - 1) == At(y, m - 1);
  }

  lemma SameIsEqual(x: seq<int>, y: seq<int>, m: nat, n: nat)
    requires EndsAt(x, m) && EndsAt(y, n)
    ensures AsParts(x[..m]) == AsParts(y[..n]) <==> Same(x, y)
  {
    if AsParts(x[..m]) == AsParts(y[..n]) {
      assert m == |AsParts(x[..m])| == |AsParts(y[..n])| == n;
      SamePrefix(x, y, m, n, m);
    }
    if Same(x, y) {
      NotLonger(x, y, m, n);
      NotLonger(y, x, n, m);
      forall i | 0 <= i < m
        ensures AsParts(x[..m])[i] == AsParts(y[..n])[i]
      {
        assert At(x, i) == At(y, i);
      }
    }
  }

  /** Versions that are numerals joined by dots compare as their numbers do, one after the
      other, a number that is not written counting as zero. */
  lemma DottedOrder(a: seq<string>, b: seq<string>)
    requires AreNumerals(a) && AreNumerals(b)
    ensures CompareVersions(Dotted(a), Dotted(b)) < 0 <==> Below(Numbers(a), Numbers(b))
    ensures CompareVersions(Dotted(a), Dotted(b)) > 0 <==> Below(Numbers(b), Numbers(a))
    ensures CompareVersions(Dotted(a), Dotted(b)) == 0 <==> Same(Numbers(a), Numbers(b))
  {
    hide CompareVersions, Clean, Dotted, DottedRuns, Alternating, Concat, Values, IsSignificant, ListLess, Below;
    var x, y := Numbers(a), Numbers(b);
    DottedIsClean(a);
    DottedIsClean(b);
    DottedIsRuns(a);
    DottedIsRuns(b);
    var m := CountSignificant(x);
    var n := CountSignificant(y);
    SignificantNumbers(x, m);
    SignificantNumbers(y, n);
    CompareMeaning(Dotted(a), Dotted(b), DottedRuns(a), DottedRuns(b), AsParts(x[..m]), AsParts(y[..n]));
    ListLessIsBelow(x, y, m, n);
    BelowIsListLess(x, y, m, n);
    ListLessIsBelow(y, x, n, m);
    BelowIsListLess(y, x, n, m);
    SameIsEqual(x, y, m, n);
  }

  // ----- Affected ranges in numbers

  /** A bound, or none. */
  function BoundText(bound: Option<seq<string>>): string
    requires bound.Some? ==> AreNumerals(bound.value)
  {
    if bound.None? then "" else Dotted(bound.value)
  }

  predicate IsBound(bound: Option<seq<string>>) { bound.Some? ==> AreNumerals(bound.value) }

  lemma BoundMeaning(observed: seq<string>, bound: Option<seq<string>>)
    requires AreNumerals(observed) && IsBound(bound)
    ensures BoundText(bound) == "" <==> bound.None?
    ensures BoundText(bound) != "*" && BoundText(bound) != "-"
    ensures bound.Some? ==>
      && (CompareVersions(Dotted(observed), BoundText(bound)) < 0 <==> Below(Numbers(observed), Numbers(bound.value)))
      && (CompareVersions(Dotted(observed), BoundText(bound)) > 0 <==> Below(Numbers(bound.value), Numbers(observed)))
      && (CompareVersions(Dotted(observed), BoundText(bound)) == 0 <==> Same(Numbers(observed), Numbers(bound.value)))
  {
    hide CompareVersions, Dotted, Numbers, AreNumerals, Below, Same;
    if bound.Some? {
      DottedBytes(bound.value);
      DottedOrder(observed, bound.value);
    }
  }

  /** For versions that are numerals joined by dots, being affected is membership in the
      interval of numbers that the bounds describe. */
  lemma AffectedMeaning(observed: seq<string>, exact: Option<seq<string>>, from: Option<seq<string>>, after: Option<seq<string>>,
                        to: Option<seq<string>>, before: Option<seq<string>>)
    requires AreNumerals(observed) && IsBound(exact) && IsBound(from) && IsBound(after) && IsBound(to) && IsBound(before)
    ensures var o, range := Numbers(observed),
                            Range(BoundText(exact), BoundText(from), BoundText(after), BoundText(to), BoundText(before));
      VersionAffected(Dotted(observed), range) <==>
        && (exact.Some? ==> Same(o, Numbers(exact.value)))
        && (from.Some? ==> !Below(o, Numbers(from.value)))
        && (after.Some? ==> Below(Numbers(after.value), o))
        && (to.Some? ==> !Below(Numbers(to.value), o))
        && (before.Some? ==> Below(o, Numbers(before.value)))
  {
    hide CompareVersions, Clean, Dotted, Numbers, AreNumerals, Below, Same;
    DottedIsClean(observed);
    DottedBytes(observed);
    BoundMeaning(observed, exact);
    BoundMeaning(observed, from);
    BoundMeaning(observed, after);
    BoundMeaning(observed, to);
    BoundMeaning(observed, before);
  }

  // ----- Cleaning

  predicate AllSpace(s: string) { forall i :: 0 <= i < |s| ==> IsSpace(s[i]) }

  lemma {:induction false} TrimLeftAll(left: string, text: string)
    requires AllSpace(left) && text != "" && !IsSpace(text[0])
    ensures TrimLeft(left + text) == text
    decreases |left|
  {
    if left == "" {
      assert left + text == text;
    } else {
      assert (left + text)[1..] == left[1..] + text;
      TrimLeftAll(left[1..], text);
    }
  }

  lemma {:induction false} TrimAround(left: string, text: string, right: string)
    requires AllSpace(left) && AllSpace(right) && text != "" && !IsSpace(text[0]) && !IsSpace(text[|text| - 1])
    ensures TrimSpace(left + text + right) == text
    decreases |right|
  {
    var s := left + text + right;
    if right == "" {
      assert s == left + text;
      TrimLeftAll(left, text);
    } else {
      assert s[..|s| - 1] == left + text + right[..|right| - 1];
      TrimAround(left, text, right[..|right| - 1]);
    }
  }

  /** Surrounding space and one leading "v", in either case, make no difference. */
  lemma CleanMeaning(left: string, v: char, text: string, right: string)
    requires AllSpace(left) && AllSpace(right) && (v == 'v' || v == 'V')
    requires text != "" && !IsSpace(text[0]) && !IsSpace(text[|text| - 1])
    ensures Clean(left + ([v] + text) + right) == Lower(text)
    ensures LowerByte(text[0]) != 'v' ==> Clean(left + text + right) == Lower(text)
  {
    TrimAround(left, [v] + text, right);
    TrimAround(left, text, right);
    assert Lower([v] + text) == ['v'] + Lower(text);
  }
}
