/** Filtering sequences, the common core of the queue's deletes and the policy selections. */
module Sequences {

  /** The elements that satisfy `keep`, in order. */
  function Filter<T(!new)>(s: seq<T>, keep: T -> bool): (r: seq<T>)
    ensures |r| <= |s|
    ensures forall x :: x in r <==> x in s && keep(x)
  {
    if s == [] then []
    else
      var last := s[|s| - 1];
      var front := Filter(s[..|s| - 1], keep);
      if keep(last) then front + [last] else front
  }

  lemma {:induction false} FilterAll<T(!new)>(s: seq<T>, keep: T -> bool)
    requires forall x :: x in s ==> keep(x)
    ensures Filter(s, keep) == s
  {
    if s == [] {
    } else {
      FilterAll(s[..|s| - 1], keep);
    }
  }

  lemma {:induction false} FilterNone<T(!new)>(s: seq<T>, keep: T -> bool)
    requires forall x :: x in s ==> !keep(x)
    ensures Filter(s, keep) == []
  {
    if s == [] {
    } else {
      FilterNone(s[..|s| - 1], keep);
    }
  }

  lemma {:induction false} FilterConcat<T(!new)>(a: seq<T>, b: seq<T>, keep: T -> bool)
    ensures Filter(a + b, keep) == Filter(a, keep) + Filter(b, keep)
    decreases |b|
  {
    if b == [] {
      assert a + b == a;
    } else {
      var n := |b| - 1;
      assert a + b == (a + b[..n]) + [b[n]];
      FilterConcat(a, b[..n], keep);
    }
  }

  lemma FilterAllBut<T(!new)>(front: seq<T>, x: T, back: seq<T>, keep: T -> bool)
    requires (forall y :: y in front ==> keep(y)) && !keep(x) && (forall y :: y in back ==> keep(y))
    ensures Filter(front + [x] + back, keep) == front + back
  {
    FilterAll(front, keep);
    FilterAll(back, keep);
    FilterConcat(front, [x], keep);
    FilterConcat(front + [x], back, keep);
  }

  /** The element at `i` satisfies `keep`, and no other does. */
  predicate IsOnly<T(!new)>(s: seq<T>, keep: T -> bool, i: int) {
    0 <= i < |s| && keep(s[i]) && forall j :: 0 <= j < |s| && j != i ==> !keep(s[j])
  }

  lemma {:induction false} FilterOnly<T(!new)>(s: seq<T>, keep: T -> bool, i: int)
    requires IsOnly(s, keep, i)
    ensures Filter(s, keep) == [s[i]]
  {
    var n := |s| - 1;
    if i == n {
      FilterNone(s[..n], keep);
    } else {
      FilterOnly(s[..n], keep, i);
    }
  }

  lemma {:induction false} FilterSingle<T(!new)>(s: seq<T>, keep: T -> bool) returns (i: int)
    requires |Filter(s, keep)| == 1
    ensures IsOnly(s, keep, i)
  {
    var n := |s| - 1;
    if keep(s[n]) {
      i := n;
      assert Filter(s[..n], keep) == [];
      forall j | 0 <= j < n
        ensures !keep(s[j])
      {
        assert s[..n][j] in s[..n];
      }
    } else {
      i := FilterSingle(s[..n], keep);
    }
  }

  lemma {:induction false} FilterMultiset<T(!new)>(s: seq<T>, keep: T -> bool, x: T)
    ensures multiset(Filter(s, keep))[x] == if keep(x) then multiset(s)[x] else 0
  {
    if s == [] {
    } else {
      var n := |s| - 1;
      assert s == s[..n] + [s[n]];
      FilterMultiset(s[..n], keep, x);
    }
  }

  /** Filtering permutations gives permutations. */
  lemma FilterPermutes<T(!new)>(a: seq<T>, b: seq<T>, keep: T -> bool)
    requires multiset(a) == multiset(b)
    ensures multiset(Filter(a, keep)) == multiset(Filter(b, keep))
    ensures |Filter(a, keep)| == |Filter(b, keep)|
  {
    forall x ensures multiset(Filter(a, keep))[x] == multiset(Filter(b, keep))[x] {
      FilterMultiset(a, keep, x);
      FilterMultiset(b, keep, x);
    }
    assert |multiset(Filter(a, keep))| == |Filter(a, keep)|;
    assert |multiset(Filter(b, keep))| == |Filter(b, keep)|;
  }
}
