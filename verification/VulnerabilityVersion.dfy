/** internal/intelligence/version.go: comparing observed versions with affected ranges. */
module VulnerabilityVersion {
  import opened GoStrings

  /** `versionPart`: a number, or the text between numbers. */
  datatype Part = Number(number: int) | Text(text: string)

  function LowerByte(c: char): char { if 'A' <= c <= 'Z' then c - 'A' + 'a' else c }

  function Lower(s: string): string { seq(|s|, i requires 0 <= i < |s| => LowerByte(s[i])) }

  /** `cleanVersion`: lower case, no surrounding space, one leading "v" dropped. */
  function Clean(value: string): string {
    var v := Lower(TrimSpace(value));
    if v != "" && v[0] == 'v' then v[1..] else v
  }

  /** The length of the first run of digits, or of other bytes. */
  function RunLength(value: string): (n: nat)
    requires value != ""
    ensures 1 <= n <= |value|
  {
    if |value| == 1 || IsDigit(value[1]) != IsDigit(value[0]) then 1 else 1 + RunLength(value[1..])
  }

  predicate IsSeparator(token: string) { token == "." || token == "-" || token == "_" }

  lemma {:induction false} RunIsUniform(value: string, i: nat)
    requires value != "" && i < RunLength(value)
    ensures IsDigit(value[i]) == IsDigit(value[0])
    decreases |value|
  {
    if i > 0 {
      RunIsUniform(value[1..], i - 1);
    }
  }

  lemma {:induction false} UniformDigits(token: string)
    requires forall i :: 0 <= i < |token| ==> IsDigit(token[i])
    ensures AllDigits(token)
    decreases |token|
  {
    if token == "" {
    } else {
      UniformDigits(token[..|token| - 1]);
    }
  }

  function NumberOf(token: string): int
    requires token != "" && forall i :: 0 <= i < |token| ==> IsDigit(token[i])
  {
    UniformDigits(token);
    Saturated(DecimalValue(token))
  }

  /** `versionParts`. */
  function Parts(value: string): (parts: seq<Part>)
    ensures forall part :: part in parts && part.Text? ==> part.text != ""
    decreases |value|
  {
    if value == "" then []
    else
      var end := RunLength(value);
      var token := value[..end];
      var rest := Parts(value[end..]);
      if IsDigit(value[0]) then
        assert forall i :: 0 <= i < end ==> IsDigit(value[i]) by {
          forall i | 0 <= i < end ensures IsDigit(value[i]) { RunIsUniform(value, i); }
        }
        [Number(NumberOf(token))] + rest
      else if IsSeparator(token) then rest
      else [Text(token)] + rest
  }

  function Trimmed(parts: seq<Part>): seq<Part> {
    if parts != [] && parts[|parts| - 1] == Number(0) then Trimmed(parts[..|parts| - 1]) else parts
  }

  /** What a version is compared by. */
  function Key(version: string): seq<Part> { Trimmed(Parts(Clean(version))) }

  // ----- The comparison

  function Sign(less: bool, greater: bool): int { if less then -1 else if greater then 1 else 0 }

  /** Numbers are above text; text compares as strings. */
  function ComparePart(a: Part, b: Part): int {
    match (a, b)
    case (Number(x), Number(y)) => Sign(x < y, x > y)
    case (Number(_), Text(_)) => 1
    case (Text(_), Number(_)) => -1
    case (Text(x), Text(y)) => Sign(Less(x, y), Less(y, x))
  }

  const MISSING := Text("")

  function PartAt(parts: seq<Part>, i: nat): Part { if i < |parts| then parts[i] else MISSING }

  /** Part by part from position `i`, the shorter list padded with the empty part. */
  function CompareFrom(a: seq<Part>, b: seq<Part>, i: nat): int
    decreases |a| + |b| - i
  {
    if i >= |a| && i >= |b| then 0
    else
      var c := ComparePart(PartAt(a, i), PartAt(b, i));
      if c != 0 then c else CompareFrom(a, b, i + 1)
  }

  function CompareVersions(left: string, right: string): int { CompareFrom(Key(left), Key(right), 0) }

  predicate NoEmptyText(parts: seq<Part>) { forall part :: part in parts && part.Text? ==> part.text != "" }

  lemma PartOrder(a: Part, b: Part, c: Part)
    ensures ComparePart(a, b) == -ComparePart(b, a)
    ensures ComparePart(a, b) == 0 <==> a == b
    ensures ComparePart(a, b) <= 0 && ComparePart(b, c) <= 0 ==> ComparePart(a, c) <= 0
  {
    hide Less;
    if a.Text? && b.Text? {
      LessTotal(a.text, b.text);
      LessIrreflexive(a.text);
      if Less(a.text, b.text) {
        LessAsymmetric(a.text, b.text);
      }
      if Less(b.text, a.text) {
        LessAsymmetric(b.text, a.text);
      }
      if c.Text? {
        LessTotal(b.text, c.text);
        if Less(a.text, b.text) && Less(b.text, c.text) {
          LessTransitive(a.text, b.text, c.text);
          LessAsymmetric(a.text, c.text);
        }
      }
    }
  }

  lemma PartRange(a: Part, b: Part)
    ensures -1 <= ComparePart(a, b) <= 1
  {
  }

  lemma {:induction false} CompareAntisymmetric(a: seq<Part>, b: seq<Part>, i: nat)
    ensures CompareFrom(a, b, i) == -CompareFrom(b, a, i)
    ensures -1 <= CompareFrom(a, b, i) <= 1
    decreases |a| + |b| - i
  {
    hide ComparePart;
    PartOrder(PartAt(a, i), PartAt(b, i), MISSING);
    PartRange(PartAt(a, i), PartAt(b, i));
    if i < |a| || i < |b| {
      CompareAntisymmetric(a, b, i + 1);
    }
  }

  /** From position `i` on, the lists agree, and so does their length. */
  lemma {:induction false} CompareZero(a: seq<Part>, b: seq<Part>, i: nat)
    requires NoEmptyText(a) && NoEmptyText(b) && i <= |a| && i <= |b| && a[..i] == b[..i]
    ensures CompareFrom(a, b, i) == 0 <==> a == b
    decreases |a| + |b| - i
  {
    hide ComparePart;
    PartOrder(PartAt(a, i), PartAt(b, i), MISSING);
    if i < |a| && i < |b| && a[i] == b[i] {
      assert a[..i + 1] == a[..i] + [a[i]] && b[..i + 1] == b[..i] + [b[i]];
      CompareZero(a, b, i + 1);
    } else if i < |a| {
      assert a[i] in a;
    } else if i < |b| {
      assert b[i] in b;
    } else {
      assert a == a[..i] && b == b[..i];
    }
  }

  lemma {:induction false} CompareStep(a: seq<Part>, b: seq<Part>, i: nat)
    requires ComparePart(PartAt(a, i), PartAt(b, i)) == 0
    ensures CompareFrom(a, b, i) == CompareFrom(a, b, i + 1)
  {
  }

  lemma {:induction false} CompareTransitive(a: seq<Part>, b: seq<Part>, c: seq<Part>, i: nat)
    requires CompareFrom(a, b, i) <= 0 && CompareFrom(b, c, i) <= 0
    ensures CompareFrom(a, c, i) <= 0
    decreases |a| + |b| + |c| - i
  {
    hide ComparePart;
    var x, y, z := PartAt(a, i), PartAt(b, i), PartAt(c, i);
    PartOrder(x, y, z);
    PartOrder(y, z, x);
    PartOrder(z, x, y);
    PartOrder(x, z, y);
    if i < |a| || i < |b| || i < |c| {
      if ComparePart(x, y) == 0 && ComparePart(y, z) == 0 {
        CompareStep(a, b, i);
        CompareStep(b, c, i);
        CompareStep(a, c, i);
        CompareTransitive(a, b, c, i + 1);
      }
    }
  }

  lemma {:induction false} TrimmedNoEmptyText(parts: seq<Part>)
    requires NoEmptyText(parts)
    ensures NoEmptyText(Trimmed(parts))
  {
    if parts != [] && parts[|parts| - 1] == Number(0) {
      TrimmedNoEmptyText(parts[..|parts| - 1]);
    }
  }

  /** `CompareVersions` is a total preorder on all strings, and finds two versions equal
      exactly when their parts without trailing zeros are the same. */
  lemma CompareIsTotalPreorder(a: string, b: string, c: string)
    ensures CompareVersions(a, b) == -CompareVersions(b, a)
    ensures CompareVersions(a, b) == 0 <==> Key(a) == Key(b)
    ensures CompareVersions(a, b) <= 0 && CompareVersions(b, c) <= 0 ==> CompareVersions(a, c) <= 0
  {
    hide CompareFrom, Parts, Clean;
    CompareAntisymmetric(Key(a), Key(b), 0);
    TrimmedNoEmptyText(Parts(Clean(a)));
    TrimmedNoEmptyText(Parts(Clean(b)));
    CompareZero(Key(a), Key(b), 0);
    if CompareVersions(a, b) <= 0 && CompareVersions(b, c) <= 0 {
      CompareTransitive(Key(a), Key(b), Key(c), 0);
    }
  }

  // ----- The loops

  lemma {:induction false} RunLengthIs(value: string, end: nat)
    requires 1 <= end <= |value|
    requires forall i :: 0 <= i < end ==> IsDigit(value[i]) == IsDigit(value[0])
    requires end == |value| || IsDigit(value[end]) != IsDigit(value[0])
    ensures RunLength(value) == end
    decreases |value|
  {
    if end > 1 {
      assert IsDigit(value[1]) == IsDigit(value[0]);
      RunLengthIs(value[1..], end - 1);
    }
  }

  /** The inner loop of `versionParts`: the end of the first run. */
  method ComputeRun(value: string) returns (end: nat)
    requires value != ""
    ensures end == RunLength(value)
    ensures forall i :: 0 <= i < end ==> IsDigit(value[i]) == IsDigit(value[0])
  {
    hide IsDigit, RunLength;
    var digit := IsDigit(value[0]);
    end := 1;
    while end < |value| && IsDigit(value[end]) == digit
      invariant 1 <= end <= |value|
      invariant forall i :: 0 <= i < end ==> IsDigit(value[i]) == digit
    {
      end := end + 1;
    }
    RunLengthIs(value, end);
  }

  /** The first run, and the parts of the rest. */
  lemma PartsUnfold(value: string, end: nat, parts: seq<Part>)
    requires value != "" && end == RunLength(value)
    requires forall i :: 0 <= i < end ==> IsDigit(value[i]) == IsDigit(value[0])
    ensures var token, rest := value[..end], Parts(value[end..]);
      parts + Parts(value) ==
        if IsDigit(value[0]) then (parts + [Number(NumberOf(token))]) + rest
        else if IsSeparator(token) then parts + rest
        else (parts + [Text(token)]) + rest
  {
    hide IsDigit, IsSeparator, NumberOf, RunLength;
  }

  lemma NoParts()
    ensures Parts("") == []
  {
  }

  method ComputeParts(value: string) returns (parts: seq<Part>)
    ensures parts == Parts(value)
  {
    hide IsDigit, IsSeparator, NumberOf, RunLength, Parts;
    parts := [];
    var rest := value;
    while |rest| > 0
      invariant parts + Parts(rest) == Parts(value)
      decreases |rest|
    {
      var end := ComputeRun(rest);
      PartsUnfold(rest, end, parts);
      var token := rest[..end];
      if IsDigit(rest[0]) {
        parts := parts + [Number(NumberOf(token))];
      } else if !IsSeparator(token) {
        parts := parts + [Text(token)];
      }
      rest := rest[end..];
    }
    NoParts();
  }

  method ComputeTrimmed(parts: seq<Part>) returns (r: seq<Part>)
    ensures r == Trimmed(parts)
  {
    r := parts;
    while |r| > 0
      invariant Trimmed(r) == Trimmed(parts)
      decreases |r|
    {
      var last := r[|r| - 1];
      if !last.Number? || last.number != 0 {
        break;
      }
      r := r[..|r| - 1];
    }
  }

  method ComputeCompare(a: seq<Part>, b: seq<Part>) returns (r: int)
    ensures r == CompareFrom(a, b, 0)
  {
    hide Less;
    var limit, i := if |b| > |a| then |b| else |a|, 0;
    while i < limit
      invariant 0 <= i <= limit
      invariant CompareFrom(a, b, i) == CompareFrom(a, b, 0)
    {
      var av, bv := PartAt(a, i), PartAt(b, i);
      if av.Number? && bv.Number? {
        if av.number < bv.number {
          return -1;
        }
        if av.number > bv.number {
          return 1;
        }
      } else if av.Number? != bv.Number? {
        return if av.Number? then 1 else -1;
      } else {
        if Less(av.text, bv.text) {
          return -1;
        }
        if Less(bv.text, av.text) {
          return 1;
        }
      }
      i := i + 1;
    }
    return 0;
  }

  method ComputeCompareVersions(left: string, right: string) returns (r: int)
    ensures r == CompareVersions(left, right)
  {
    hide Parts, Clean, Trimmed, CompareFrom;
    var a := ComputeParts(Clean(left));
    var b := ComputeParts(Clean(right));
    a := ComputeTrimmed(a);
    b := ComputeTrimmed(b);
    r := ComputeCompare(a, b);
  }

  // ----- Affected ranges

  datatype Range = Range(
    affectedVersion: string,
    startIncluding: string,
    startExcluding: string,
    endIncluding: string,
    endExcluding: string)

  predicate WithinRange(v: string, range: Range) {
    var exact := range.affectedVersion;
    && (exact == "" || exact == "*" || exact == "-" || CompareVersions(v, exact) == 0)
    && (range.startIncluding == "" || CompareVersions(v, range.startIncluding) >= 0)
    && (range.startExcluding == "" || CompareVersions(v, range.startExcluding) > 0)
    && (range.endIncluding == "" || CompareVersions(v, range.endIncluding) <= 0)
    && (range.endExcluding == "" || CompareVersions(v, range.endExcluding) < 0)
  }

  /** `VersionAffected`. Its comparisons clean the observed version a second time. */
  predicate VersionAffected(observed: string, range: Range) {
    Clean(observed) != "" && WithinRange(Clean(observed), range)
  }

  lemma BetweenBounds(low: string, mid: string, high: string, bound: string)
    requires CompareVersions(low, mid) <= 0 && CompareVersions(mid, high) <= 0
    ensures CompareVersions(low, bound) >= 0 ==> CompareVersions(mid, bound) >= 0
    ensures CompareVersions(low, bound) > 0 ==> CompareVersions(mid, bound) > 0
    ensures CompareVersions(high, bound) <= 0 ==> CompareVersions(mid, bound) <= 0
    ensures CompareVersions(high, bound) < 0 ==> CompareVersions(mid, bound) < 0
  {
    hide CompareVersions;
    CompareIsTotalPreorder(bound, low, mid);
    CompareIsTotalPreorder(low, bound, mid);
    CompareIsTotalPreorder(mid, high, bound);
    CompareIsTotalPreorder(mid, bound, high);
    CompareIsTotalPreorder(low, mid, bound);
    CompareIsTotalPreorder(bound, mid, high);
    CompareIsTotalPreorder(high, bound, mid);
    CompareIsTotalPreorder(bound, mid, low);
    CompareIsTotalPreorder(mid, bound, low);
    CompareIsTotalPreorder(high, mid, bound);
    CompareIsTotalPreorder(bound, high, mid);
  }

  /** A range is convex: whatever lies between two affected versions is affected. */
  lemma AffectedIsConvex(low: string, mid: string, high: string, range: Range)
    ensures (&& CompareVersions(Clean(low), Clean(mid)) <= 0 && CompareVersions(Clean(mid), Clean(high)) <= 0
             && VersionAffected(low, range) && VersionAffected(high, range) && Clean(mid) != "") ==>
      VersionAffected(mid, range)
  {
    hide CompareVersions, Clean;
    if CompareVersions(Clean(low), Clean(mid)) <= 0 && CompareVersions(Clean(mid), Clean(high)) <= 0 {
      BetweenBounds(Clean(low), Clean(mid), Clean(high), range.affectedVersion);
      BetweenBounds(Clean(low), Clean(mid), Clean(high), range.startIncluding);
      BetweenBounds(Clean(low), Clean(mid), Clean(high), range.startExcluding);
      BetweenBounds(Clean(low), Clean(mid), Clean(high), range.endIncluding);
      BetweenBounds(Clean(low), Clean(mid), Clean(high), range.endExcluding);
    }
  }

  /** In particular for versions that cleaning leaves as they are. */
  lemma CleanedAffectedIsConvex(low: string, mid: string, high: string, range: Range)
    requires Clean(low) == low && Clean(mid) == mid && Clean(high) == high && mid != ""
    ensures (&& CompareVersions(low, mid) <= 0 && CompareVersions(mid, high) <= 0
             && VersionAffected(low, range) && VersionAffected(high, range)) ==> VersionAffected(mid, range)
  {
    hide CompareVersions, Clean, VersionAffected;
    AffectedIsConvex(low, mid, high, range);
  }
}
