/** internal/coveragepolicy/policy.go: discovery policies stay within the server's scope.
    An address is a number below two to the width of its family, 32 or 128 bits; a prefix
    stands for the addresses that share its leading bits (section 3.1 of RFC 4632). */
module CoverageScope {
  import opened GoStrings

  const MAXIMUM_POLICY_NAME_LENGTH := 100
  const MAXIMUM_POLICY_CIDRS := 50

  /** The start of the block of the given size that a number lies in. */
  function ClearLow(x: nat, size: nat): nat
    requires size > 0
  {
    x / size * size
  }

  function Pow2(n: nat): (p: nat)
    ensures p >= 1
  {
    if n == 0 then 1 else 2 * Pow2(n - 1)
  }

  datatype Prefix = Prefix(width: nat, address: nat, bits: nat)
  {
    predicate Valid() { (width == 32 || width == 128) && bits <= width && address < Pow2(width) }

    /** How many addresses the prefix has. */
    function Size(): (n: nat)
      requires bits <= width
      ensures n > 0
    {
      Pow2(width - bits)
    }

    /** Whether an address of the same family shares the leading bits. */
    predicate Contains(a: nat)
      requires bits <= width
    {
      a / Size() == address / Size()
    }

    function Masked(): Prefix
      requires bits <= width
    {
      this.(address := ClearLow(address, Size()))
    }
  }

  lemma {:induction false} Pow2Sum(m: nat, n: nat)
    ensures Pow2(m + n) == Pow2(m) * Pow2(n)
    decreases m
  {
    if m > 0 {
      Pow2Sum(m - 1, n);
      assert Pow2(m + n) == 2 * Pow2(m - 1 + n);
      assert 2 * (Pow2(m - 1) * Pow2(n)) == (2 * Pow2(m - 1)) * Pow2(n);
    }
  }

  lemma {:induction false} Pow2Grows(n: nat)
    requires n > 0
    ensures Pow2(n) >= 2
  {
  }

  // ----- Division

  lemma LaterBlock(p: nat, q: nat, size: nat)
    ensures p < q ==> (p + 1) * size <= q * size
  {
    if p < q {
      assert q * size == (p + 1) * size + (q - p - 1) * size;
    }
  }

  /** A number lies in one block only. */
  lemma Unique(x: nat, size: nat, p: nat, q: nat)
    requires size > 0 && p * size <= x < (p + 1) * size && q * size <= x < (q + 1) * size
    ensures p == q
  {
    LaterBlock(p, q, size);
    LaterBlock(q, p, size);
  }

  lemma Quotient(x: nat, size: nat, q: nat)
    requires size > 0
    ensures x / size == q <==> q * size <= x < (q + 1) * size
  {
    assert x == (x / size) * size + x % size;
    if q * size <= x < (q + 1) * size {
      Unique(x, size, x / size, q);
    }
  }

  lemma BlockBounds(x: nat, q: nat, r: nat, size: nat, count: nat)
    requires size > 0 && count > 0 && q * size <= x < (q + 1) * size && r * count <= q < (r + 1) * count
    ensures r * (size * count) <= x < (r + 1) * (size * count)
  {
    assert r * count * size <= q * size;
    assert (q + 1) * size <= (r + 1) * count * size;
    assert r * (size * count) == r * count * size;
    assert (r + 1) * (size * count) == (r + 1) * count * size;
  }

  /** Addresses in one small block are in one large block made of small blocks. */
  lemma CoarserBlock(x: nat, y: nat, size: nat, count: nat)
    requires size > 0 && count > 0 && x / size == y / size
    ensures x / (size * count) == y / (size * count)
  {
    var q := x / size;
    var r := q / count;
    Quotient(x, size, q);
    Quotient(y, size, q);
    Quotient(q, count, r);
    BlockBounds(x, q, r, size, count);
    BlockBounds(y, q, r, size, count);
    Quotient(x, size * count, r);
    Quotient(y, size * count, r);
  }

  // ----- The scope test

  predicate Covers(boundary: Prefix, candidate: Prefix)
    requires boundary.Valid() && candidate.Valid()
  {
    candidate.width == boundary.width && candidate.bits >= boundary.bits && boundary.Contains(candidate.address)
  }

  /** Every address of the candidate is an address of the boundary, in the same family. */
  ghost predicate Includes(boundary: Prefix, candidate: Prefix)
    requires boundary.Valid() && candidate.Valid()
  {
    candidate.width == boundary.width && forall a :: candidate.Contains(a) ==> boundary.Contains(a)
  }

  lemma LongerPrefixInside(boundary: Prefix, candidate: Prefix, a: nat)
    requires boundary.Valid() && candidate.Valid() && Covers(boundary, candidate) && candidate.Contains(a)
    ensures boundary.Contains(a)
  {
    var extra := candidate.bits - boundary.bits;
    Pow2Sum(candidate.width - candidate.bits, extra);
    CoarserBlock(a, candidate.address, candidate.Size(), Pow2(extra));
  }

  lemma NextBlock(x: nat, size: nat)
    requires size > 0
    ensures (x + size) / size == x / size + 1
  {
    var q := x / size;
    Quotient(x, size, q);
    assert (q + 1) * size == q * size + size && (q + 2) * size == (q + 1) * size + size;
    Quotient(x + size, size, q + 1);
  }

  /** A large block has two numbers that lie in different small blocks. */
  lemma TwoSmallBlocks(q: nat, small: nat, count: nat)
    requires small > 0 && count >= 2
    ensures var large := small * count;
      && large > 0
      && (q * large) / large == q && (q * large + small) / large == q
      && (q * large) / small != (q * large + small) / small
  {
    var large := small * count;
    assert large >= small * 2;
    assert (q + 1) * large == q * large + large;
    Quotient(q * large, large, q);
    Quotient(q * large + small, large, q);
    NextBlock(q * large, small);
  }

  /** A shorter prefix has two addresses that a longer one tells apart. */
  lemma ShorterPrefixOutside(boundary: Prefix, candidate: Prefix)
    requires boundary.Valid() && candidate.Valid() && candidate.width == boundary.width && candidate.bits < boundary.bits
    ensures !Includes(boundary, candidate)
  {
    hide Pow2;
    var small, extra := boundary.Size(), boundary.bits - candidate.bits;
    Pow2Sum(boundary.width - boundary.bits, extra);
    Pow2Grows(extra);
    var q := candidate.address / candidate.Size();
    TwoSmallBlocks(q, small, Pow2(extra));
    var low := q * candidate.Size();
    assert candidate.Contains(low) && candidate.Contains(low + small);
  }

  /** The prefix test is inclusion of the sets of addresses. */
  lemma CoversIsInclusion(boundary: Prefix, candidate: Prefix)
    requires boundary.Valid() && candidate.Valid()
    ensures Covers(boundary, candidate) <==> Includes(boundary, candidate)
  {
    if Covers(boundary, candidate) {
      forall a: nat | candidate.Contains(a)
        ensures boundary.Contains(a)
      {
        LongerPrefixInside(boundary, candidate, a);
      }
    }
    if Includes(boundary, candidate) {
      assert candidate.Contains(candidate.address);
      if candidate.bits < boundary.bits {
        ShorterPrefixOutside(boundary, candidate);
      }
    }
  }

  lemma MaskedBlock(x: nat, size: nat)
    requires size > 0
    ensures ClearLow(x, size) <= x && ClearLow(x, size) / size == x / size
  {
    Quotient(x, size, x / size);
    assert (x / size + 1) * size == x / size * size + size;
    Quotient(ClearLow(x, size), size, x / size);
  }

  /** Clearing the host bits keeps the addresses. */
  lemma MaskedSameAddresses(p: Prefix, a: nat)
    requires p.Valid()
    ensures p.Masked().Valid() && (p.Masked().Contains(a) <==> p.Contains(a))
  {
    hide Pow2;
    MaskedBlock(p.address, p.Size());
  }

  /** What is left is the lowest address of the prefix. */
  lemma MaskedIsLowest(p: Prefix, a: nat)
    requires p.Valid()
    ensures p.Contains(p.Masked().address) && (p.Contains(a) ==> p.Masked().address <= a)
  {
    hide Pow2;
    MaskedBlock(p.address, p.Size());
    MaskedBlock(a, p.Size());
  }

  /** Two prefixes are written alike exactly when they stand for the same addresses. */
  lemma MaskIsCanonical(p: Prefix, q: Prefix)
    requires p.Valid() && q.Valid()
    ensures p.Masked() == q.Masked() <==> Includes(p, q) && Includes(q, p)
  {
    hide Pow2, Covers;
    forall a: nat
      ensures (p.Masked().Contains(a) <==> p.Contains(a)) && (q.Masked().Contains(a) <==> q.Contains(a))
    {
      MaskedSameAddresses(p, a);
      MaskedSameAddresses(q, a);
    }
    if Includes(p, q) && Includes(q, p) {
      if p.bits < q.bits {
        ShorterPrefixOutside(q, p);
      } else if q.bits < p.bits {
        ShorterPrefixOutside(p, q);
      }
      assert p.Contains(p.address) && q.Contains(p.address);
    }
  }

  // ----- Policies

  /** Parsed CIDR texts; `None` is a text that does not parse. */
  predicate AllParsed(texts: seq<Option<Prefix>>) {
    forall i :: 0 <= i < |texts| ==> texts[i].Some? && texts[i].value.Valid()
  }

  predicate WithinAllowedScope(candidate: Prefix, allowed: seq<Prefix>)
    requires candidate.Valid() && forall i :: 0 <= i < |allowed| ==> allowed[i].Valid()
  {
    exists i :: 0 <= i < |allowed| && Covers(allowed[i], candidate)
  }

  /** The prefix is valid and one of the allowed prefixes has all its addresses. */
  ghost predicate InScope(p: Prefix, allowed: seq<Option<Prefix>>)
    requires AllParsed(allowed)
  {
    p.Valid() && exists i :: 0 <= i < |allowed| && Includes(allowed[i].value, p)
  }

  predicate AllDistinct(prefixes: seq<Prefix>) { forall i, j :: 0 <= i < j < |prefixes| ==> prefixes[i] != prefixes[j] }

  function MaskedAll(texts: seq<Option<Prefix>>): (r: seq<Prefix>)
    requires AllParsed(texts)
  {
    seq(|texts|, i requires 0 <= i < |texts| => texts[i].value.Masked())
  }

  lemma AllMaskedValid(texts: seq<Option<Prefix>>)
    requires AllParsed(texts)
    ensures forall i :: 0 <= i < |texts| ==> MaskedAll(texts)[i].Valid()
  {
    hide Pow2;
    forall i | 0 <= i < |texts|
      ensures MaskedAll(texts)[i].Valid()
    {
      MaskedSameAddresses(texts[i].value, 0);
    }
  }

  /** `withinAllowedScope` over the masked server prefixes means being in scope. */
  lemma ScopeTestMeaning(p: Prefix, allowed: seq<Option<Prefix>>)
    requires AllParsed(allowed) && p.Valid()
    requires forall i :: 0 <= i < |allowed| ==> MaskedAll(allowed)[i].Valid()
    ensures WithinAllowedScope(p, MaskedAll(allowed)) <==> InScope(p, allowed)
  {
    hide Pow2, Covers;
    forall i | 0 <= i < |allowed|
      ensures Covers(MaskedAll(allowed)[i], p) <==> Includes(allowed[i].value, p)
    {
      CoversIsInclusion(MaskedAll(allowed)[i], p);
      forall a: nat ensures MaskedAll(allowed)[i].Contains(a) <==> allowed[i].value.Contains(a) {
        MaskedSameAddresses(allowed[i].value, a);
      }
    }
  }

  /** What a policy must meet to be accepted. */
  ghost predicate Acceptable(name: string, cidrs: seq<Option<Prefix>>, allowed: seq<Option<Prefix>>) {
    && 1 <= |TrimSpace(name)| <= MAXIMUM_POLICY_NAME_LENGTH
    && 1 <= |cidrs| <= MAXIMUM_POLICY_CIDRS
    && AllParsed(allowed) && AllParsed(cidrs)
    && (forall i :: 0 <= i < |cidrs| ==> InScope(MaskedAll(cidrs)[i], allowed))
    && AllDistinct(MaskedAll(cidrs))
  }

  lemma PrefixBits(p: Prefix)
    requires p.Valid()
    ensures p.bits <= p.width
  {
  }

  method ParsePrefixes(texts: seq<Option<Prefix>>) returns (r: Option<seq<Prefix>>)
    requires forall c :: c in texts && c.Some? ==> c.value.Valid()
    ensures r.Some? <==> AllParsed(texts)
    ensures r.Some? ==> r.value == MaskedAll(texts)
  {
    hide Pow2, Prefix.Valid;
    var prefixes: seq<Prefix>, next := [], 0;
    while next < |texts|
      invariant 0 <= next <= |texts| && AllParsed(texts[..next])
      invariant prefixes == MaskedAll(texts[..next])
    {
      if texts[next].None? {
        return None;
      }
      assert texts[next] in texts;
      PrefixBits(texts[next].value);
      prefixes := prefixes + [texts[next].value.Masked()];
      next := next + 1;
    }
    assert texts[..next] == texts;
    return Some(prefixes);
  }

  /** `Normalize`: a policy is accepted exactly when it is acceptable, and then lists its
      prefixes in order with the host bits cleared, under its name without surrounding space. */
  method Normalize(name: string, cidrs: seq<Option<Prefix>>, allowed: seq<Option<Prefix>>)
    returns (r: Option<(string, seq<Prefix>)>)
    requires forall c :: c in cidrs && c.Some? ==> c.value.Valid()
    requires forall c :: c in allowed && c.Some? ==> c.value.Valid()
    ensures r.Some? <==> Acceptable(name, cidrs, allowed)
    ensures r.Some? ==> r.value == (TrimSpace(name), MaskedAll(cidrs))
  {
    hide Pow2, Prefix.Valid, InScope, TrimSpace;
    var trimmed := TrimSpace(name);
    if trimmed == "" || |trimmed| > MAXIMUM_POLICY_NAME_LENGTH || |cidrs| == 0 || |cidrs| > MAXIMUM_POLICY_CIDRS {
      return None;
    }
    var boundaries := ParsePrefixes(allowed);
    if boundaries.None? {
      return None;
    }
    AllMaskedValid(allowed);
    var normalized: seq<Prefix>, seen: set<Prefix>, next := [], {}, 0;
    while next < |cidrs|
      invariant 0 <= next <= |cidrs| && AllParsed(cidrs[..next])
      invariant normalized == MaskedAll(cidrs[..next]) && AllDistinct(normalized)
      invariant forall i :: 0 <= i < next ==> InScope(normalized[i], allowed)
      invariant forall p :: p in seen <==> p in normalized
    {
      if cidrs[next].None? {
        return None;
      }
      assert cidrs[next] in cidrs;
      PrefixBits(cidrs[next].value);
      MaskedSameAddresses(cidrs[next].value, 0);
      var prefix := cidrs[next].value.Masked();
      ScopeTestMeaning(prefix, allowed);
      if !WithinAllowedScope(prefix, boundaries.value) {
        assert AllParsed(cidrs) ==> MaskedAll(cidrs)[next] == prefix;
        return None;
      }
      if prefix in seen {
        var i :| 0 <= i < |normalized| && normalized[i] == prefix;
        assert AllParsed(cidrs) ==> MaskedAll(cidrs)[i] == MaskedAll(cidrs)[next];
        return None;
      }
      seen := seen + {prefix};
      normalized := normalized + [prefix];
      next := next + 1;
    }
    assert cidrs[..next] == cidrs;
    return Some((trimmed, normalized));
  }

  /** No two prefixes of an accepted policy stand for the same addresses. */
  lemma AcceptedWithoutRepeats(name: string, cidrs: seq<Option<Prefix>>, allowed: seq<Option<Prefix>>, i: nat, j: nat)
    requires Acceptable(name, cidrs, allowed) && i < j < |cidrs|
    ensures !(Includes(cidrs[i].value, cidrs[j].value) && Includes(cidrs[j].value, cidrs[i].value))
  {
    hide Pow2, TrimSpace, Includes;
    assert MaskedAll(cidrs)[i] != MaskedAll(cidrs)[j];
    MaskIsCanonical(cidrs[i].value, cidrs[j].value);
  }

  /** Every address of an accepted policy lies in one prefix of the server's scope. */
  lemma AcceptedWithinScope(name: string, cidrs: seq<Option<Prefix>>, allowed: seq<Option<Prefix>>, i: nat, a: nat)
    requires Acceptable(name, cidrs, allowed) && i < |cidrs| && cidrs[i].value.Contains(a)
    ensures exists j :: 0 <= j < |allowed| && allowed[j].value.width == cidrs[i].value.width && allowed[j].value.Contains(a)
  {
    hide Pow2, TrimSpace;
    assert InScope(MaskedAll(cidrs)[i], allowed);
    var j :| 0 <= j < |allowed| && Includes(allowed[j].value, MaskedAll(cidrs)[i]);
    MaskedSameAddresses(cidrs[i].value, a);
  }
}
