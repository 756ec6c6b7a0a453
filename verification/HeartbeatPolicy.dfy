/** internal/relayheartbeat/policy.go: which delayed-heartbeat policy applies to an endpoint. */
module HeartbeatPolicy {
  import opened GoStrings
  import opened Sequences
  import opened UploadWindow
  import opened HeartbeatSuppression

  const MAXIMUM_REASON_LENGTH := 500
  const MAXIMUM_TARGET_LENGTH := 200
  const MAXIMUM_POST_WINDOW_GRACE := 24 * 60

  datatype TargetPolicy = TargetPolicy(
    targetType: string,
    targetId: string,
    allow: bool,
    graceMinutes: int,
    reason: string)

  datatype PolicySource = DefaultDeny | EndpointOverride | EndpointConflictDeny | GroupInheritance | GroupConflictDeny

  datatype Resolved = Resolved(
    endpointId: string,
    policy: Policy,
    source: PolicySource,
    sourceIds: seq<string>,
    conflict: bool)

  predicate ValidPolicy(p: TargetPolicy) {
    && (p.targetType == "endpoint" || p.targetType == "group")
    && !IsBlank(p.targetId) && |p.targetId| <= MAXIMUM_TARGET_LENGTH
    && !IsBlank(p.reason) && |p.reason| <= MAXIMUM_REASON_LENGTH
    && 0 <= p.graceMinutes <= MAXIMUM_POST_WINDOW_GRACE
    && (!p.allow ==> p.graceMinutes == 0)
  }

  predicate AllValidPolicies(policies: seq<TargetPolicy>) { forall p :: p in policies ==> ValidPolicy(p) }

  predicate IsOverride(p: TargetPolicy, endpointId: string) { p.targetType == "endpoint" && p.targetId == endpointId }

  predicate IsGroup(p: TargetPolicy) { p.targetType == "group" }

  function Overrides(policies: seq<TargetPolicy>, endpointId: string): seq<TargetPolicy> {
    Filter(policies, (p: TargetPolicy) => IsOverride(p, endpointId))
  }

  function Groups(policies: seq<TargetPolicy>): seq<TargetPolicy> {
    Filter(policies, (p: TargetPolicy) => IsGroup(p))
  }

  /** The accumulator of the loop over the group policies. */
  datatype Merged = Merged(policy: Policy, seenAllow: bool, seenDeny: bool, ids: seq<string>)

  function Merge(groups: seq<TargetPolicy>): Merged {
    if groups == [] then Merged(Policy(true, MAXIMUM_POST_WINDOW_GRACE), false, false, [])
    else
      var group, m := groups[|groups| - 1], Merge(groups[..|groups| - 1]);
      var ids := m.ids + [group.targetId];
      if group.allow then
        var grace := m.policy.postWindowGraceMinutes;
        Merged(Policy(m.policy.allowDelayedHeartbeats, if group.graceMinutes < grace then group.graceMinutes else grace),
               true, m.seenDeny, ids)
      else Merged(Policy(false, 0), m.seenAllow, true, ids)
  }

  function Resolve(endpointId: string, policies: seq<TargetPolicy>): Resolved {
    var overrides, groups := Overrides(policies, endpointId), Groups(policies);
    if |overrides| > 1 then Resolved(endpointId, Policy(false, 0), EndpointConflictDeny, [endpointId], true)
    else if |overrides| == 1 then
      Resolved(endpointId, Policy(overrides[0].allow, if overrides[0].allow then overrides[0].graceMinutes else 0),
               EndpointOverride, [endpointId], false)
    else if groups == [] then Resolved(endpointId, Policy(false, 0), DefaultDeny, [], false)
    else
      var m := Merge(groups);
      var conflict := m.seenAllow && m.seenDeny;
      Resolved(endpointId, m.policy, if conflict then GroupConflictDeny else GroupInheritance,
               SortStrings(m.ids), conflict)
  }

  lemma OverridesAreNotGroups(p: TargetPolicy, endpointId: string)
    ensures !(IsOverride(p, endpointId) && IsGroup(p))
  {
    assert "endpoint"[0] != "group"[0];
  }

  method MergeGroups(groups: seq<TargetPolicy>) returns (m: Merged)
    ensures m == Merge(groups)
  {
    var allow, grace, seenAllow, seenDeny, ids := true, MAXIMUM_POST_WINDOW_GRACE, false, false, [];
    var next := 0;
    while next < |groups|
      invariant 0 <= next <= |groups|
      invariant Merged(Policy(allow, grace), seenAllow, seenDeny, ids) == Merge(groups[..next])
    {
      var group := groups[next];
      assert groups[..next + 1][..next] == groups[..next];
      ids := ids + [group.targetId];
      next := next + 1;
      if group.allow {
        seenAllow := true;
        if group.graceMinutes < grace {
          grace := group.graceMinutes;
        }
      } else {
        seenDeny, allow, grace := true, false, 0;
      }
    }
    assert groups[..next] == groups;
    m := Merged(Policy(allow, grace), seenAllow, seenDeny, ids);
  }

  method ComputeResolve(endpointId: string, policies: seq<TargetPolicy>) returns (result: Resolved)
    ensures result == Resolve(endpointId, policies)
  {
    hide IsOverride, IsGroup, SortStrings;
    var groups, overrides := [], [];
    var next := 0;
    while next < |policies|
      invariant 0 <= next <= |policies|
      invariant overrides == Overrides(policies[..next], endpointId) && groups == Groups(policies[..next])
    {
      var policy := policies[next];
      assert policies[..next + 1][..next] == policies[..next];
      OverridesAreNotGroups(policy, endpointId);
      if IsOverride(policy, endpointId) {
        overrides := overrides + [policy];
      } else if IsGroup(policy) {
        groups := groups + [policy];
      }
      next := next + 1;
    }
    assert policies[..next] == policies;
    result := Resolved(endpointId, Policy(false, 0), DefaultDeny, [], false);
    if |overrides| > 1 {
      return result.(source := EndpointConflictDeny, sourceIds := [endpointId], conflict := true);
    }
    if |overrides| == 1 {
      var allow := overrides[0].allow;
      var grace := if allow then overrides[0].graceMinutes else 0;
      return result.(policy := Policy(allow, grace), source := EndpointOverride, sourceIds := [endpointId]);
    }
    if groups == [] {
      return;
    }
    var m := MergeGroups(groups);
    result := result.(policy := m.policy, source := GroupInheritance, sourceIds := SortStrings(m.ids));
    if m.seenAllow && m.seenDeny {
      return result.(source := GroupConflictDeny, conflict := true);
    }
  }

  // ----- The result does not depend on the order of the policies

  /** Deny wins, and the shortest grace period wins. */
  predicate MergeMeaning(groups: seq<TargetPolicy>, m: Merged) {
    && (m.seenAllow <==> exists g :: g in groups && g.allow)
    && (m.seenDeny <==> exists g :: g in groups && !g.allow)
    && m.policy.allowDelayedHeartbeats == !m.seenDeny
    && var grace := m.policy.postWindowGraceMinutes;
    && 0 <= grace <= MAXIMUM_POST_WINDOW_GRACE
    && (m.seenDeny ==> grace == 0)
    && (!m.seenDeny ==> forall g :: g in groups ==> grace <= g.graceMinutes)
    && (!m.seenDeny ==> grace == MAXIMUM_POST_WINDOW_GRACE || exists g :: g in groups && g.graceMinutes == grace)
  }

  lemma {:induction false} MergeIsMeaning(groups: seq<TargetPolicy>)
    requires AllValidPolicies(groups)
    ensures MergeMeaning(groups, Merge(groups))
  {
    hide IsBlank;
    if groups == [] {
    } else {
      var n := |groups| - 1;
      MergeIsMeaning(groups[..n]);
      assert groups == groups[..n] + [groups[n]];
      assert groups[n] in groups;
      assert forall g :: g in groups <==> g in groups[..n] || g == groups[n];
    }
  }

  function Ids(groups: seq<TargetPolicy>): seq<string> {
    seq(|groups|, i requires 0 <= i < |groups| => groups[i].targetId)
  }

  lemma {:induction false} MergeIds(groups: seq<TargetPolicy>)
    ensures Merge(groups).ids == Ids(groups)
  {
    if groups == [] {
    } else {
      MergeIds(groups[..|groups| - 1]);
    }
  }

  lemma IdsWithout(s: seq<TargetPolicy>, i: nat)
    requires i < |s|
    ensures var rest := s[..i] + s[i + 1..];
      && multiset(s) == multiset(rest) + multiset{s[i]}
      && multiset(Ids(s)) == multiset(Ids(rest)) + multiset{s[i].targetId}
  {
    var rest := s[..i] + s[i + 1..];
    assert s == s[..i] + [s[i]] + s[i + 1..];
    assert Ids(s) == Ids(s[..i]) + [s[i].targetId] + Ids(s[i + 1..]);
    assert Ids(rest) == Ids(s[..i]) + Ids(s[i + 1..]);
  }

  lemma {:induction false} IdsPermute(a: seq<TargetPolicy>, b: seq<TargetPolicy>)
    requires multiset(a) == multiset(b)
    ensures multiset(Ids(a)) == multiset(Ids(b))
    decreases |a|
  {
    hide Ids;
    assert |multiset(a)| == |a| && |multiset(b)| == |b|;
    if a == [] {
      assert a == b;
    } else {
      assert a[0] in multiset(b);
      var i :| 0 <= i < |b| && b[i] == a[0];
      IdsWithout(a, 0);
      IdsWithout(b, i);
      var restA, restB := a[..0] + a[1..], b[..i] + b[i + 1..];
      assert multiset(restA) == multiset(a) - multiset{a[0]};
      assert multiset(restB) == multiset(b) - multiset{b[i]};
      IdsPermute(restA, restB);
    }
  }

  lemma MergePermutes(a: seq<TargetPolicy>, b: seq<TargetPolicy>)
    requires AllValidPolicies(a) && AllValidPolicies(b) && multiset(a) == multiset(b)
    ensures var m, n := Merge(a), Merge(b);
      m.policy == n.policy && m.seenAllow == n.seenAllow && m.seenDeny == n.seenDeny && SortStrings(m.ids) == SortStrings(n.ids)
  {
    hide Merge, ValidPolicy, SortStrings;
    MergeIsMeaning(a);
    MergeIsMeaning(b);
    assert forall g :: g in a <==> g in multiset(a);
    assert forall g :: g in b <==> g in multiset(b);
    MergeIds(a);
    MergeIds(b);
    IdsPermute(a, b);
    SortSorts(Ids(a));
    SortSorts(Ids(b));
    SortedUnique(SortStrings(Ids(a)), SortStrings(Ids(b)));
  }

  /** The same policies in any order resolve to the same result. */
  lemma ResolveOrderIndependent(endpointId: string, a: seq<TargetPolicy>, b: seq<TargetPolicy>)
    requires AllValidPolicies(a) && AllValidPolicies(b) && multiset(a) == multiset(b)
    ensures Resolve(endpointId, a) == Resolve(endpointId, b)
  {
    hide Merge, ValidPolicy, SortStrings, IsOverride, IsGroup, Filter;
    FilterPermutes(a, b, (p: TargetPolicy) => IsOverride(p, endpointId));
    FilterPermutes(a, b, (p: TargetPolicy) => IsGroup(p));
    var x, y := Overrides(a, endpointId), Overrides(b, endpointId);
    var g, h := Groups(a), Groups(b);
    assert |multiset(x)| == |x| && |multiset(y)| == |y|;
    assert |multiset(g)| == |g| && |multiset(h)| == |h|;
    if |x| == 1 {
      assert x[0] in multiset(y);
    }
    MergePermutes(g, h);
  }

  /** A single endpoint policy decides alone, several deny; otherwise delayed heartbeats are
      allowed exactly when there are group policies and all of them allow it, with the
      shortest of their grace periods. */
  lemma ResolveMeaning(endpointId: string, policies: seq<TargetPolicy>)
    requires AllValidPolicies(policies)
    ensures var r := Resolve(endpointId, policies);
      && (forall p :: Overrides(policies, endpointId) == [p] ==> r.policy == Policy(p.allow, p.graceMinutes) && !r.conflict)
      && (|Overrides(policies, endpointId)| > 1 ==> !r.policy.allowDelayedHeartbeats && r.conflict)
      && ((forall p :: p in policies ==> !IsOverride(p, endpointId)) ==>
            && (r.policy.allowDelayedHeartbeats <==>
                  (exists p :: p in policies && IsGroup(p)) && (forall p :: p in policies && IsGroup(p) ==> p.allow))
            && (r.policy.allowDelayedHeartbeats ==>
                  && (forall p :: p in policies && IsGroup(p) ==> r.policy.postWindowGraceMinutes <= p.graceMinutes)
                  && exists p :: p in policies && IsGroup(p) && p.graceMinutes == r.policy.postWindowGraceMinutes)
            && (!r.policy.allowDelayedHeartbeats ==> r.policy.postWindowGraceMinutes == 0)
            && (r.conflict <==>
                  exists p, q :: p in policies && q in policies && IsGroup(p) && IsGroup(q) && p.allow && !q.allow))
  {
    hide Merge, SortStrings, IsOverride, IsGroup, Filter;
    var overrides, groups := Overrides(policies, endpointId), Groups(policies);
    MergeIsMeaning(groups);
    forall p | overrides == [p]
      ensures p.allow || p.graceMinutes == 0
    {
      assert p in overrides;
    }
    if overrides != [] {
      assert overrides[0] in overrides;
    }
    if groups != [] {
      assert groups[0] in groups;
    }
  }

  /** The result names what it rests on: the endpoint, the groups in order of their names, or
      nothing. */
  lemma SourceMeaning(endpointId: string, policies: seq<TargetPolicy>)
    requires AllValidPolicies(policies)
    ensures var r, overrides, groups := Resolve(endpointId, policies), Overrides(policies, endpointId), Groups(policies);
      && r.endpointId == endpointId
      && (overrides != [] ==> r.sourceIds == [endpointId])
      && (overrides == [] ==> Sorted(r.sourceIds) && multiset(r.sourceIds) == multiset(Ids(groups)))
      && (r.source.EndpointConflictDeny? <==> |overrides| > 1)
      && (r.source.EndpointOverride? <==> |overrides| == 1)
      && (r.source.DefaultDeny? <==> overrides == [] && groups == [])
      && (r.source.GroupConflictDeny? <==>
            overrides == [] && exists p, q :: p in groups && q in groups && p.allow && !q.allow)
  {
    hide Merge, SortStrings, IsOverride, IsGroup, Filter, ValidPolicy;
    var groups := Groups(policies);
    MergeIsMeaning(groups);
    MergeIds(groups);
    SortSorts(Ids(groups));
  }

  // ----- What the endpoint's alerts come to

  lemma SuppressionMonotone(windows: seq<Window>, narrow: Policy, wide: Policy, now: int)
    requires narrow.allowDelayedHeartbeats ==> wide.allowDelayedHeartbeats
    requires narrow.postWindowGraceMinutes <= wide.postWindowGraceMinutes
    ensures ShouldSuppress(windows, narrow, now) ==> ShouldSuppress(windows, wide, now)
  {
    hide AllValid, OpenNow, ClosedAt;
  }

  lemma SuppressionAllowed(windows: seq<Window>, policy: Policy, now: int)
    ensures ShouldSuppress(windows, policy, now) ==> policy.allowDelayedHeartbeats
  {
  }

  /** Without an override, an alert is silenced exactly when there are group policies and each
      of them on its own would silence it. */
  lemma GroupsSuppressTogether(endpointId: string, policies: seq<TargetPolicy>, windows: seq<Window>, now: int)
    requires AllValidPolicies(policies) && forall p :: p in policies ==> !IsOverride(p, endpointId)
    ensures ShouldSuppress(windows, Resolve(endpointId, policies).policy, now) <==>
      && (exists g :: g in policies && IsGroup(g))
      && (forall g :: g in policies && IsGroup(g) ==> ShouldSuppress(windows, Policy(g.allow, g.graceMinutes), now))
  {
    hide Resolve, ShouldSuppress, ValidPolicy, IsOverride, IsGroup;
    ResolveMeaning(endpointId, policies);
    var policy := Resolve(endpointId, policies).policy;
    SuppressionAllowed(windows, policy, now);
    if policy.allowDelayedHeartbeats {
      forall g | g in policies && IsGroup(g)
        ensures ShouldSuppress(windows, policy, now) ==> ShouldSuppress(windows, Policy(g.allow, g.graceMinutes), now)
      {
        SuppressionMonotone(windows, policy, Policy(g.allow, g.graceMinutes), now);
      }
      var shortest :| shortest in policies && IsGroup(shortest) && shortest.graceMinutes == policy.postWindowGraceMinutes;
      assert Policy(shortest.allow, shortest.graceMinutes) == policy;
    } else if g :| g in policies && IsGroup(g) && !g.allow {
      SuppressionAllowed(windows, Policy(g.allow, g.graceMinutes), now);
    }
  }

  /** With one override, an alert is silenced exactly when the override silences it; with more
      than one, never. */
  lemma OverrideSuppresses(endpointId: string, policies: seq<TargetPolicy>, windows: seq<Window>, now: int)
    requires AllValidPolicies(policies)
    ensures var overrides := Overrides(policies, endpointId);
      && (|overrides| == 1 ==>
            (ShouldSuppress(windows, Resolve(endpointId, policies).policy, now) <==>
               ShouldSuppress(windows, Policy(overrides[0].allow, overrides[0].graceMinutes), now)))
      && (|overrides| > 1 ==> !ShouldSuppress(windows, Resolve(endpointId, policies).policy, now))
  {
    hide Resolve, ShouldSuppress, ValidPolicy, IsOverride, IsGroup;
    ResolveMeaning(endpointId, policies);
    var overrides := Overrides(policies, endpointId);
    SuppressionAllowed(windows, Resolve(endpointId, policies).policy, now);
    if |overrides| == 1 {
      assert overrides == [overrides[0]];
    }
  }

  // ----- Another group policy never silences more alerts

  /** Adding a group policy, unless it is the first policy that applies at all, never turns
      a raised heartbeat alert into a suppressed one. */
  lemma GroupNeverWidens(endpointId: string, policies: seq<TargetPolicy>, group: TargetPolicy, windows: seq<Window>, now: int)
    requires AllValidPolicies(policies) && ValidPolicy(group) && IsGroup(group)
    requires Groups(policies) != [] || Overrides(policies, endpointId) != []
    ensures ShouldSuppress(windows, Resolve(endpointId, policies + [group]).policy, now) ==>
      ShouldSuppress(windows, Resolve(endpointId, policies).policy, now)
  {
    hide Merge, ShouldSuppress, SortStrings, ValidPolicy;
    var more := policies + [group];
    assert more[..|policies|] == policies;
    OverridesAreNotGroups(group, endpointId);
    MergeIsMeaning(Groups(policies));
    assert Groups(more) == Groups(policies) + [group];
    MergeIsMeaning(Groups(more));
    var narrow, wide := Resolve(endpointId, more).policy, Resolve(endpointId, policies).policy;
    if Overrides(policies, endpointId) == [] {
      assert group in Groups(more);
    }
    SuppressionMonotone(windows, narrow, wide, now);
  }
}
