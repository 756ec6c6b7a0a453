/** The parts of Go's string handling that the modelled code leans on: byte-wise
    ordering, splitting and decimal parsing. A Go string is a byte string, so every
    `char` of a `string` in this project stands for one byte. */
module GoStrings {
  datatype Option<+T> = None | Some(value: T)

  /** Go's `<` on strings. */
  predicate Less(a: string, b: string)
    decreases |a|
  {
    |b| > 0 && (|a| == 0 || a[0] < b[0] || (a[0] == b[0] && Less(a[1..], b[1..])))
  }

  lemma SameBeginning<T>(a: seq<T>, b: seq<T>, k: nat)
    requires k <= |a| && k <= |b| && a[..k] == b[..k]
    ensures k > 0 ==> a[0] == b[0]
  {
    if k > 0 {
      assert a[..k][0] == b[..k][0];
    }
  }

  /** The order of bytes: at the first difference the smaller byte decides, and a string is
      above its own beginning. */
  lemma {:induction false} LessMeaning(a: string, b: string)
    ensures Less(a, b) <==>
      exists k :: 0 <= k <= |a| && k < |b| && a[..k] == b[..k] && (k == |a| || a[k] < b[k])
    decreases |a|
  {
    if a == "" || b == "" || a[0] != b[0] {
      assert a[..0] == b[..0];
      forall k | 0 <= k <= |a| && k < |b| && a[..k] == b[..k]
        ensures k > 0 ==> a[0] == b[0]
      {
        SameBeginning(a, b, k);
      }
    } else {
      LessMeaning(a[1..], b[1..]);
      forall k | 0 < k <= |a| && k < |b|
        ensures a[..k] == b[..k] <==> a[1..][..k - 1] == b[1..][..k - 1]
      {
        assert a[..k] == [a[0]] + a[1..][..k - 1] && b[..k] == [b[0]] + b[1..][..k - 1];
      }
      if Less(a, b) {
        var k :| 0 <= k <= |a[1..]| && k < |b[1..]| && a[1..][..k] == b[1..][..k] && (k == |a[1..]| || a[1..][k] < b[1..][k]);
        assert a[..k + 1] == b[..k + 1];
      }
      if k :| 0 <= k <= |a| && k < |b| && a[..k] == b[..k] && (k == |a| || a[k] < b[k]) {
        assert k > 0 && a[1..][..k - 1] == b[1..][..k - 1];
      }
    }
  }

  lemma {:induction false} LessIrreflexive(a: string)
    ensures !Less(a, a)
    decreases |a|
  {
    if a == [] {
    } else {
      LessIrreflexive(a[1..]);
    }
  }

  lemma {:induction false} LessTransitive(a: string, b: string, c: string)
    requires Less(a, b) && Less(b, c)
    ensures Less(a, c)
    decreases |a|
  {
    if a != [] && a[0] == b[0] && b[0] == c[0] {
      LessTransitive(a[1..], b[1..], c[1..]);
    }
  }

  lemma {:induction false} LessTotal(a: string, b: string)
    ensures Less(a, b) || a == b || Less(b, a)
    decreases |a|
  {
    if a != [] && b != [] && a[0] == b[0] {
      LessTotal(a[1..], b[1..]);
      assert a == [a[0]] + a[1..] && b == [b[0]] + b[1..];
    }
  }

  lemma LessAsymmetric(a: string, b: string)
    requires Less(a, b)
    ensures !Less(b, a) && a != b
  {
    LessIrreflexive(a);
    if Less(b, a) {
      LessTransitive(a, b, a);
    }
  }

  // ----- Sorting

  predicate Sorted(s: seq<string>) {
    forall i, j :: 0 <= i < j < |s| ==> !Less(s[j], s[i])
  }

  function Insert(s: seq<string>, x: string): seq<string>
    decreases |s|
  {
    if s == [] || !Less(s[0], x) then [x] + s else [s[0]] + Insert(s[1..], x)
  }

  /** `sort.Strings`. */
  function SortStrings(s: seq<string>): seq<string> {
    if s == [] then [] else Insert(SortStrings(s[1..]), s[0])
  }

  lemma {:induction false} InsertPermutes(s: seq<string>, x: string)
    ensures multiset(Insert(s, x)) == multiset(s) + multiset{x}
    decreases |s|
  {
    hide Less;
    if s != [] && Less(s[0], x) {
      InsertPermutes(s[1..], x);
      assert s == [s[0]] + s[1..];
    }
  }

  lemma BelowAll(s: seq<string>, x: string)
    requires Sorted(s) && s != [] && !Less(s[0], x)
    ensures forall i :: 0 <= i < |s| ==> !Less(s[i], x)
  {
    hide Less;
    forall i | 0 <= i < |s|
      ensures !Less(s[i], x)
    {
      if Less(s[i], x) && i > 0 {
        LessTotal(s[0], s[i]);
        if Less(s[0], s[i]) {
          LessTransitive(s[0], s[i], x);
        }
      }
    }
  }

  lemma {:induction false} InsertSorts(s: seq<string>, x: string)
    requires Sorted(s)
    ensures Sorted(Insert(s, x))
    decreases |s|
  {
    hide Less;
    if s == [] {
    } else {
      LessTotal(s[0], x);
      if Less(s[0], x) {
        LessAsymmetric(s[0], x);
        InsertSorts(s[1..], x);
        InsertPermutes(s[1..], x);
        var rest := Insert(s[1..], x);
        forall i | 0 <= i < |rest|
          ensures !Less(rest[i], s[0])
        {
          assert rest[i] in multiset(rest);
        }
      } else {
        BelowAll(s, x);
      }
    }
  }

  lemma {:induction false} SortSorts(s: seq<string>)
    ensures Sorted(SortStrings(s)) && multiset(SortStrings(s)) == multiset(s)
  {
    if s == [] {
    } else {
      SortSorts(s[1..]);
      InsertSorts(SortStrings(s[1..]), s[0]);
      InsertPermutes(SortStrings(s[1..]), s[0]);
      assert s == [s[0]] + s[1..];
    }
  }

  lemma SameFirst(a: seq<string>, b: seq<string>)
    requires Sorted(a) && Sorted(b) && multiset(a) == multiset(b) && a != [] && b != []
    ensures a[0] == b[0]
  {
    hide Less;
    assert a[0] in multiset(b) && b[0] in multiset(a);
    var i :| 0 <= i < |b| && b[i] == a[0];
    var j :| 0 <= j < |a| && a[j] == b[0];
    LessTotal(a[0], b[0]);
  }

  /** Sorting has one result, whatever order the strings came in. */
  lemma {:induction false} SortedUnique(a: seq<string>, b: seq<string>)
    requires Sorted(a) && Sorted(b) && multiset(a) == multiset(b)
    ensures a == b
    decreases |a|
  {
    hide Less;
    assert |multiset(a)| == |a| && |multiset(b)| == |b|;
    if a == [] {
    } else {
      SameFirst(a, b);
      assert a == [a[0]] + a[1..] && b == [b[0]] + b[1..];
      assert multiset(a[1..]) == multiset(a) - multiset{a[0]};
      assert multiset(b[1..]) == multiset(b) - multiset{b[0]};
      SortedUnique(a[1..], b[1..]);
    }
  }

  /** `strings.Cut`: the text before and after the first separator. */
  function Cut(s: string, sep: char): (r: (string, string))
    ensures sep !in r.0
    ensures sep in s ==> s == r.0 + [sep] + r.1
    ensures sep !in s ==> r == (s, "")
  {
    if s == "" then ("", "")
    else if s[0] == sep then ("", s[1..])
    else
      var rest := Cut(s[1..], sep);
      assert s == [s[0]] + s[1..];
      ([s[0]] + rest.0, rest.1)
  }

  lemma {:induction false} CutAt(head: string, sep: char, tail: string)
    requires sep !in head
    ensures Cut(head + [sep] + tail, sep) == (head, tail)
  {
    var s := head + [sep] + tail;
    if head == "" {
      assert s[0] == sep && s[1..] == tail;
    } else {
      assert s[0] == head[0] && s[1..] == head[1..] + [sep] + tail && [head[0]] + head[1..] == head;
      CutAt(head[1..], sep, tail);
    }
  }

  /** `strings.Split` on a one-byte separator. */
  function Split(s: string, sep: char): (r: seq<string>)
    ensures |r| >= 1
    ensures forall part :: part in r ==> sep !in part
    decreases |s|
  {
    if sep !in s then [s]
    else var (before, after) := Cut(s, sep); [before] + Split(after, sep)
  }

  lemma SplitWhole(s: string, sep: char)
    requires sep !in s
    ensures Split(s, sep) == [s]
  {
  }

  lemma SplitAt(head: string, sep: char, tail: string)
    requires sep !in head
    ensures Split(head + [sep] + tail, sep) == [head] + Split(tail, sep)
  {
    CutAt(head, sep, tail);
  }

  /** A byte that occurs in no part and is not the separator occurs nowhere. */
  lemma {:induction false} SplitCovers(s: string, sep: char, c: char)
    requires c != sep && forall part :: part in Split(s, sep) ==> c !in part
    ensures c !in s
    decreases |s|
  {
    if sep in s {
      var (before, after) := Cut(s, sep);
      assert Split(s, sep) == [before] + Split(after, sep);
      assert before in Split(s, sep);
      SplitCovers(after, sep, c);
    } else {
      assert Split(s, sep) == [s];
    }
  }

  predicate IsSpace(c: char) { c == ' ' || '\t' <= c <= '\r' }

  /** `strings.TrimSpace(s) == ""`. */
  predicate IsBlank(s: string) { forall i :: 0 <= i < |s| ==> IsSpace(s[i]) }

  function TrimLeft(s: string): string { if s != "" && IsSpace(s[0]) then TrimLeft(s[1..]) else s }

  /** `strings.TrimSpace`. */
  function TrimSpace(s: string): string
    decreases |s|
  {
    if s != "" && IsSpace(s[|s| - 1]) then TrimSpace(s[..|s| - 1]) else TrimLeft(s)
  }

  predicate IsDigit(c: char) { '0' <= c <= '9' }

  predicate AllDigits(s: string) {
    s == "" || (IsDigit(s[|s| - 1]) && AllDigits(s[..|s| - 1]))
  }

  predicate IsNumeric(s: string) { s != "" && AllDigits(s) }

  /** The bytes of prereleases and build metadata. */
  predicate IdentifierByte(c: char) {
    IsDigit(c) || 'A' <= c <= 'Z' || 'a' <= c <= 'z' || c == '.' || c == '-'
  }

  predicate IdentifierBytes(s: string) { s == "" || (IdentifierByte(s[0]) && IdentifierBytes(s[1..])) }

  function DecimalValue(s: string): (r: nat)
    requires AllDigits(s)
    decreases |s|
  {
    if s == "" then 0
    else DecimalValue(s[..|s| - 1]) * 10 + (s[|s| - 1] as int - '0' as int)
  }

  const MAXIMUM_INT := 0x7fff_ffff_ffff_ffff

  /** What `strconv` makes of a number that is too large: the largest int. */
  function Saturated(n: int): int { if n <= MAXIMUM_INT then n else MAXIMUM_INT }

  predicate HasSign(s: string) { |s| > 0 && (s[0] == '-' || s[0] == '+') }

  /** `strconv.Atoi`, which also accepts a sign; `None` is a syntax or range error. */
  function Atoi(s: string): (r: Option<int>)
  {
    var digits := if HasSign(s) then s[1..] else s;
    if digits == "" || !AllDigits(digits) then None
    else
      var magnitude: int := DecimalValue(digits);
      var number := if s[0] == '-' then -magnitude else magnitude;
      if -MAXIMUM_INT - 1 <= number <= MAXIMUM_INT then Some(number) else None
  }
}
