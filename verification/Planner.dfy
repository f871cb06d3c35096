/** plan of internal/application/updater/service.go: every change of an event, worked
    out before a remote call is made. */
module Planner {
  import opened Text
  import opened Errors
  import opened Planning
  import opened Branches
  import Sorting

  // ---- The accepted rules ----

  function TargetOf(m: Matched, annotate: bool): Target
    requires m.location.Ok?
  {
    Target(m.location.value, m.env, annotate && m.wantsManifest)
  }

  predicate Located(ms: seq<Matched>) {
    forall i :: 0 <= i < |ms| ==> (ms[i].tagError.None? ==> ms[i].location.Ok?)
  }

  /** The targets of the rules that accept the tag, in declaration order. */
  function Accepted(ms: seq<Matched>, annotate: bool): seq<Target>
    requires Located(ms)
  {
    if ms == [] then []
    else
      var m := ms[|ms| - 1];
      Accepted(ms[..|ms| - 1], annotate) + if m.tagError.None? then [TargetOf(m, annotate)] else []
  }

  function KeyOf(naming: Naming, t: Target): string { RepositoryKey(naming, t.location) }

  /** The targets in the manifest repository with key k. */
  function InRepository(naming: Naming, ts: seq<Target>, k: string): seq<Target> {
    if ts == [] then []
    else
      var t := ts[|ts| - 1];
      InRepository(naming, ts[..|ts| - 1], k) + if KeyOf(naming, t) == k then [t] else []
  }

  lemma {:induction false} InRepositoryMember(naming: Naming, ts: seq<Target>, k: string, t: Target)
    ensures t in InRepository(naming, ts, k) <==> t in ts && KeyOf(naming, t) == k
  {
    if ts != [] {
      InRepositoryMember(naming, ts[..|ts| - 1], k, t);
      assert ts == ts[..|ts| - 1] + [ts[|ts| - 1]];
    }
  }

  // ---- Groups ----

  datatype Group = Group(location: Location, targets: seq<Target>)

  function GroupKey(naming: Naming, g: Group): string { RepositoryKey(naming, g.location) }

  /** groups collects ts by repository, one group a key. */
  ghost predicate Grouped(naming: Naming, ts: seq<Target>, groups: seq<Group>) {
    && (forall i, j :: 0 <= i < j < |groups| ==> GroupKey(naming, groups[i]) != GroupKey(naming, groups[j]))
    && (forall i :: 0 <= i < |groups| ==> IsGroup(naming, ts, groups[i]))
    && forall t :: t in ts ==> HasGroup(naming, groups, KeyOf(naming, t))
  }

  ghost predicate IsGroup(naming: Naming, ts: seq<Target>, g: Group) {
    && g.targets == InRepository(naming, ts, GroupKey(naming, g))
    && g.targets != [] && g.location == g.targets[0].location
  }

  ghost predicate HasGroup(naming: Naming, groups: seq<Group>, k: string) {
    exists i :: 0 <= i < |groups| && GroupKey(naming, groups[i]) == k
  }

  /** The index the map keeps of the groups is right. */
  ghost predicate Indexed(naming: Naming, groups: seq<Group>, index: map<string, nat>) {
    && (forall k :: k in index ==> index[k] < |groups| && GroupKey(naming, groups[index[k]]) == k)
    && forall i :: 0 <= i < |groups| ==> GroupKey(naming, groups[i]) in index && index[GroupKey(naming, groups[i])] == i
  }

  lemma {:induction false} NoneInRepository(naming: Naming, ts: seq<Target>, k: string)
    requires forall t :: t in ts ==> KeyOf(naming, t) != k
    ensures InRepository(naming, ts, k) == []
  {
    if ts != [] {
      NoneInRepository(naming, ts[..|ts| - 1], k);
    }
  }

  lemma NewGroup(naming: Naming, ts: seq<Target>, t: Target, groups: seq<Group>)
    requires Grouped(naming, ts, groups) && !HasGroup(naming, groups, KeyOf(naming, t))
    ensures Grouped(naming, ts + [t], groups + [Group(t.location, [t])])
  {
    var k, after := KeyOf(naming, t), groups + [Group(t.location, [t])];
    NoneInRepository(naming, ts, k);
    forall i | 0 <= i < |after| ensures IsGroup(naming, ts + [t], after[i]) {
      if i < |groups| {
        assert IsGroup(naming, ts, groups[i]);
      }
    }
    forall u | u in ts + [t] ensures HasGroup(naming, after, KeyOf(naming, u)) {
      if u in ts {
        var i :| 0 <= i < |groups| && GroupKey(naming, groups[i]) == KeyOf(naming, u);
        assert GroupKey(naming, after[i]) == KeyOf(naming, u);
      } else {
        assert GroupKey(naming, after[|groups|]) == KeyOf(naming, u);
      }
    }
  }

  lemma JoinGroup(naming: Naming, ts: seq<Target>, t: Target, groups: seq<Group>, i: nat)
    requires Grouped(naming, ts, groups) && i < |groups| && GroupKey(naming, groups[i]) == KeyOf(naming, t)
    ensures Grouped(naming, ts + [t], groups[i := Group(groups[i].location, groups[i].targets + [t])])
  {
    var after := groups[i := Group(groups[i].location, groups[i].targets + [t])];
    forall j | 0 <= j < |after|
      ensures GroupKey(naming, after[j]) == GroupKey(naming, groups[j]) && IsGroup(naming, ts + [t], after[j]) {
      if j != i {
        assert GroupKey(naming, groups[j]) != GroupKey(naming, groups[i]);
      }
    }
    forall u | u in ts + [t] ensures HasGroup(naming, after, KeyOf(naming, u)) {
      if u in ts {
        var j :| 0 <= j < |groups| && GroupKey(naming, groups[j]) == KeyOf(naming, u);
        assert GroupKey(naming, after[j]) == KeyOf(naming, u);
      } else {
        assert GroupKey(naming, after[i]) == KeyOf(naming, u);
      }
    }
  }

  /** The first accepted rule that cannot be located. */
  function FirstLocationError(ms: seq<Matched>): Option<Error> {
    if ms == [] then None
    else
      var before, m := FirstLocationError(ms[..|ms| - 1]), ms[|ms| - 1];
      if before.Some? then before
      else if m.tagError.None? && m.location.Err? then Some(m.location.error)
      else None
  }

  /** The first refused tag. */
  function FirstTagError(ms: seq<Matched>): Option<Error> {
    if ms == [] then None
    else
      var before := FirstTagError(ms[..|ms| - 1]);
      if before.Some? then before else ms[|ms| - 1].tagError
  }

  /** The location error is that of the first rule that accepts the tag and has no location. */
  lemma {:induction false} FirstLocationErrorIsFirst(ms: seq<Matched>) returns (i: nat)
    ensures FirstLocationError(ms).None? <==> forall j :: 0 <= j < |ms| ==> ms[j].tagError.Some? || ms[j].location.Ok?
    ensures FirstLocationError(ms).Some? ==>
              && i < |ms| && ms[i].tagError.None? && ms[i].location == Err(FirstLocationError(ms).value)
              && forall j :: 0 <= j < i ==> ms[j].tagError.Some? || ms[j].location.Ok?
  {
    i := 0;
    if ms != [] {
      var n := |ms| - 1;
      i := FirstLocationErrorIsFirst(ms[..n]);
      assert forall j :: 0 <= j < n ==> ms[..n][j] == ms[j];
      if FirstLocationError(ms[..n]).None? {
        i := n;
      }
    }
  }

  /** The tag error is that of the first rule that refuses the tag. */
  lemma {:induction false} FirstTagErrorIsFirst(ms: seq<Matched>) returns (i: nat)
    ensures FirstTagError(ms).None? <==> forall j :: 0 <= j < |ms| ==> ms[j].tagError.None?
    ensures FirstTagError(ms).Some? ==>
              i < |ms| && ms[i].tagError == FirstTagError(ms) && forall j :: 0 <= j < i ==> ms[j].tagError.None?
  {
    i := 0;
    if ms != [] {
      var n := |ms| - 1;
      i := FirstTagErrorIsFirst(ms[..n]);
      assert forall j :: 0 <= j < n ==> ms[..n][j] == ms[j];
      if FirstTagError(ms[..n]).None? {
        i := n;
      }
    }
  }

  lemma {:induction false} FirstErrorStays(ms: seq<Matched>, i: nat)
    requires i <= |ms| && FirstLocationError(ms[..i]).Some?
    ensures FirstLocationError(ms) == FirstLocationError(ms[..i])
  {
    if i < |ms| {
      assert ms[..|ms| - 1][..i] == ms[..i];
      FirstErrorStays(ms[..|ms| - 1], i);
    } else {
      assert ms[..i] == ms;
    }
  }

  method AddTarget(naming: Naming, ghost ts: seq<Target>, groups: seq<Group>, byRepository: map<string, nat>,
                   target: Target)
    returns (groups': seq<Group>, byRepository': map<string, nat>)
    requires Grouped(naming, ts, groups) && Indexed(naming, groups, byRepository)
    ensures Grouped(naming, ts + [target], groups') && Indexed(naming, groups', byRepository')
  {
    var key := RepositoryKey(naming, target.location);
    if key in byRepository {
      var g := byRepository[key];
      JoinGroup(naming, ts, target, groups, g);
      groups' := groups[g := Group(groups[g].location, groups[g].targets + [target])];
      byRepository' := byRepository;
    } else {
      NewGroup(naming, ts, target, groups);
      byRepository' := byRepository[key := |groups|];
      groups' := groups + [Group(target.location, [target])];
    }
  }

  lemma NextRule(ms: seq<Matched>, annotate: bool, i: nat)
    requires i < |ms| && Located(ms[..i])
    ensures FirstLocationError(ms[..i + 1]) ==
            if FirstLocationError(ms[..i]).Some? then FirstLocationError(ms[..i])
            else if ms[i].tagError.None? && ms[i].location.Err? then Some(ms[i].location.error) else None
    ensures FirstTagError(ms[..i + 1]) == if FirstTagError(ms[..i]).Some? then FirstTagError(ms[..i])
            else ms[i].tagError
    ensures (ms[i].tagError.None? ==> ms[i].location.Ok?) ==>
              Located(ms[..i + 1]) &&
              Accepted(ms[..i + 1], annotate) == Accepted(ms[..i], annotate) + if ms[i].tagError.None?
                  then [TargetOf(ms[i], annotate)] else []
  {
    var prefix := ms[..i + 1];
    assert prefix[..i] == ms[..i] && prefix[i] == ms[i];
  }

  method GroupByRepository(naming: Naming, ms: seq<Matched>, annotate: bool)
    returns (r: Result<seq<Group>, Error>, tagError: Option<Error>)
    ensures r.Err? <==> FirstLocationError(ms).Some?
    ensures r.Err? ==> r.error == FirstLocationError(ms).value
    ensures r.Ok? ==> Located(ms) && Grouped(naming, Accepted(ms, annotate), r.value)
    ensures r.Ok? ==> tagError == FirstTagError(ms)
  {
    var groups: seq<Group> := [];
    var byRepository: map<string, nat> := map[];
    tagError := None;
    ghost var accepted: seq<Target> := [];
    for i := 0 to |ms|
      invariant Located(ms[..i]) && FirstLocationError(ms[..i]) == None
      invariant tagError == FirstTagError(ms[..i])
      invariant accepted == Accepted(ms[..i], annotate)
      invariant Grouped(naming, accepted, groups) && Indexed(naming, groups, byRepository)
    {
      NextRule(ms, annotate, i);
      if ms[i].tagError.Some? {
        if tagError.None? {
          tagError := ms[i].tagError;
        }
        continue;
      }
      if ms[i].location.Err? {
        FirstErrorStays(ms, i + 1);
        return Err(ms[i].location.error), tagError;
      }
      var target := TargetOf(ms[i], annotate);
      groups, byRepository := AddTarget(naming, accepted, groups, byRepository, target);
      accepted := accepted + [target];
    }
    assert ms[..|ms|] == ms;
    return Ok(groups), tagError;
  }

  // ---- Plans ----

  /** The environments of a repository, sorted and without repeats. */
  ghost predicate EnvironmentsOf(ts: seq<Target>, envs: seq<string>) {
    Sorting.Increasing(envs) && forall e :: e in envs <==> exists i :: 0 <= i < |ts| && ts[i].env == e
  }

  function BranchEnv(envs: seq<string>): string {
    if |envs| > 1 then "multi" else Join(envs, ",")
  }

  /** The plan for the targets ts of one repository. */
  ghost predicate PlanFor(naming: Naming, event: Event, ts: seq<Target>, p: RepositoryPlan) {
    && ts != [] && p.location == ts[0].location
    && Normalized(ts, p.targets)
    && ValidBranch(p.branch)
    && exists envs :: EnvironmentsOf(p.targets, envs) && p.env == Join(envs, ",") &&
                      p.branch == RepositoryBranchName(naming, event, BranchEnv(envs), p.location, p.targets)
  }

  predicate OneEnv(ts: seq<Target>, e: string) { forall i :: 0 <= i < |ts| ==> ts[i].env == e }

  predicate SeveralEnvs(ts: seq<Target>) {
    exists i, j :: 0 <= i < |ts| && 0 <= j < |ts| && ts[i].env != ts[j].env
  }

  /** A plan names the environments of its targets, each once and in order; its branch has
      the one of them, or "multi" where there are several. */
  lemma PlanNamesEnvironments(naming: Naming, event: Event, ts: seq<Target>, p: RepositoryPlan)
    requires PlanFor(naming, event, ts, p)
    ensures p.targets != []
    ensures forall e :: OneEnv(p.targets, e) ==>
              p.env == e && p.branch == RepositoryBranchName(naming, event, e, p.location, p.targets)
    ensures SeveralEnvs(p.targets) ==> p.branch == RepositoryBranchName(naming, event, "multi", p.location, p.targets)
    ensures (forall i :: 0 <= i < |p.targets| ==> Free(p.targets[i].env, ',')) ==>
              EnvironmentsOf(p.targets, Split(p.env, ','))
  {
    var envs :| EnvironmentsOf(p.targets, envs) && p.env == Join(envs, ",") &&
                p.branch == RepositoryBranchName(naming, event, BranchEnv(envs), p.location, p.targets);
    assert p.targets != [] by {
      assert Changes(ts)[0] in Changes(p.targets);
    }
    EnvironmentsSplit(p.targets, envs);
    var name := env => RepositoryBranchName(naming, event, env, p.location, p.targets);
    forall e | OneEnv(p.targets, e) ensures p.env == e && p.branch == name(e) {
      OneEnvironment(p.targets, envs, e);
    }
    if SeveralEnvs(p.targets) {
      SeveralEnvironments(p.targets, envs);
      assert p.branch == name("multi");
    }
  }

  lemma SeveralEnvironments(ts: seq<Target>, envs: seq<string>)
    requires EnvironmentsOf(ts, envs) && SeveralEnvs(ts)
    ensures BranchEnv(envs) == "multi"
  {
    var i, j :| 0 <= i < |ts| && 0 <= j < |ts| && ts[i].env != ts[j].env;
    assert ts[i].env in envs && ts[j].env in envs;
  }

  lemma EnvironmentsSplit(ts: seq<Target>, envs: seq<string>)
    requires EnvironmentsOf(ts, envs) && ts != []
    ensures (forall i :: 0 <= i < |ts| ==> Free(ts[i].env, ',')) ==> Split(Join(envs, ","), ',') == envs
  {
    assert ts[0].env in envs;
    if forall i :: 0 <= i < |ts| ==> Free(ts[i].env, ',') {
      forall i | 0 <= i < |envs| ensures Free(envs[i], ',') {
        assert envs[i] in envs;
      }
      SplitJoin(envs, ',');
    }
  }

  lemma OneEnvironment(ts: seq<Target>, envs: seq<string>, e: string)
    requires EnvironmentsOf(ts, envs) && ts != [] && OneEnv(ts, e)
    ensures Join(envs, ",") == e && BranchEnv(envs) == e
  {
    forall i | 0 <= i < |envs| ensures envs[i] == e {
      assert envs[i] in envs;
    }
    assert ts[0].env in envs;
    if |envs| > 1 {
      LessAsymmetric(envs[0], envs[1]);
    }
    assert envs == [e];
  }

  /** The plans of an event: strictly ordered by repository, and between them they
      cover every accepted target exactly once. */
  ghost predicate Planned(naming: Naming, event: Event, accepted: seq<Target>, plans: seq<RepositoryPlan>) {
    && plans != []
    && (forall i, j :: 0 <= i < j < |plans| ==> Less(RepositoryKey(naming, plans[i].location),
                                                     RepositoryKey(naming, plans[j].location)))
    && (forall i :: 0 <= i < |plans| ==>
          PlanFor(naming, event, InRepository(naming, accepted, RepositoryKey(naming, plans[i].location)), plans[i]))
    && forall t :: t in accepted ==> Covered(naming, plans, KeyOf(naming, t))
  }

  ghost predicate Covered(naming: Naming, plans: seq<RepositoryPlan>, k: string) {
    exists i :: 0 <= i < |plans| && RepositoryKey(naming, plans[i].location) == k
  }

  /** In terms of changes: those of a plan are those of the accepted rules in its repository. */
  lemma PlansPartitionChanges(naming: Naming, event: Event, accepted: seq<Target>, plans: seq<RepositoryPlan>,
                              t: Target)
    requires Planned(naming, event, accepted, plans) && t in accepted
    ensures exists i :: 0 <= i < |plans| && RepositoryKey(naming, plans[i].location) == KeyOf(naming, t) &&
                        ChangeOf(t) in Changes(plans[i].targets)
    ensures forall i, j :: 0 <= i < j < |plans| ==>
              !(RepositoryKey(naming, plans[i].location) == KeyOf(naming, t) ==
                RepositoryKey(naming, plans[j].location))
  {
    assert Covered(naming, plans, KeyOf(naming, t));
    var i :| 0 <= i < |plans| && RepositoryKey(naming, plans[i].location) == KeyOf(naming, t);
    var ts := InRepository(naming, accepted, KeyOf(naming, t));
    InRepositoryMember(naming, accepted, KeyOf(naming, t), t);
    var k :| 0 <= k < |ts| && ts[k] == t;
    assert Changes(ts)[k] == ChangeOf(t);
    forall a, b | 0 <= a < b < |plans|
      ensures RepositoryKey(naming, plans[a].location) != RepositoryKey(naming, plans[b].location)
    {
      LessAsymmetric(RepositoryKey(naming, plans[a].location), RepositoryKey(naming, plans[b].location));
    }
  }

  predicate GroupAtMost(naming: Naming, g: Group, h: Group) {
    AtMost(GroupKey(naming, g), GroupKey(naming, h))
  }

  lemma GroupsOrdered(naming: Naming)
    ensures Sorting.TotalPreorder((g, h) => GroupAtMost(naming, g, h))
  {
    forall a, b ensures GroupAtMost(naming, a, b) || GroupAtMost(naming, b, a) {
      LessTotal(GroupKey(naming, a), GroupKey(naming, b));
    }
    forall a, b, c | GroupAtMost(naming, a, b) && GroupAtMost(naming, b, c) ensures GroupAtMost(naming, a, c) {
      if GroupKey(naming, a) != GroupKey(naming, b) && GroupKey(naming, b) != GroupKey(naming, c) {
        LessTransitive(GroupKey(naming, a), GroupKey(naming, b), GroupKey(naming, c));
      }
    }
  }

  method Environments(ts: seq<Target>) returns (envs: seq<string>)
    ensures EnvironmentsOf(ts, envs)
  {
    var seen: set<string> := {};
    var list: seq<string> := [];
    for i := 0 to |ts|
      invariant forall e :: e in seen <==> e in list
      invariant forall e :: e in list <==> exists j :: 0 <= j < i && ts[j].env == e
      invariant forall a, b :: 0 <= a < b < |list| ==> list[a] != list[b]
    {
      if ts[i].env in seen {
        continue;
      }
      seen := seen + {ts[i].env};
      list := list + [ts[i].env];
    }
    envs := Sorting.SortStrings(list);
  }

  lemma GroupsStayGrouped(naming: Naming, ts: seq<Target>, groups: seq<Group>, sorted: seq<Group>)
    requires Grouped(naming, ts, groups) && multiset(sorted) == multiset(groups)
    requires Sorting.SortedBy((g, h) => GroupAtMost(naming, g, h), sorted)
    ensures Grouped(naming, ts, sorted)
    ensures forall i, j :: 0 <= i < j < |sorted| ==> Less(GroupKey(naming, sorted[i]), GroupKey(naming, sorted[j]))
    ensures sorted == [] <==> groups == []
  {
    Sorting.SameMembers(groups, sorted);
    assert |sorted| == |multiset(sorted)| == |groups|;
    forall i, j | 0 <= i < j < |sorted| ensures GroupKey(naming, sorted[i]) != GroupKey(naming, sorted[j]) {
      Sorting.DistinctPermutation(groups, sorted, i, j);
      assert sorted[i] in groups && sorted[j] in groups;
    }
    forall i | 0 <= i < |sorted| ensures IsGroup(naming, ts, sorted[i]) {
      assert sorted[i] in groups;
    }
    forall t | t in ts ensures HasGroup(naming, sorted, KeyOf(naming, t)) {
      var i :| 0 <= i < |groups| && GroupKey(naming, groups[i]) == KeyOf(naming, t);
      assert groups[i] in sorted;
      var j :| 0 <= j < |sorted| && sorted[j] == groups[i];
    }
    forall i, j | 0 <= i < j < |sorted| ensures Less(GroupKey(naming, sorted[i]), GroupKey(naming, sorted[j])) {
      assert GroupAtMost(naming, sorted[i], sorted[j]);
    }
  }

  /** The branch for the targets of one repository is not one that git accepts. */
  ghost predicate BranchRefused(naming: Naming, event: Event, ts: seq<Target>) {
    ts != [] && exists us, envs :: Normalized(ts, us) && EnvironmentsOf(us, envs) &&
                                   !ValidBranch(RepositoryBranchName(naming, event, BranchEnv(envs), ts[0].location,
                                                                     us))
  }

  ghost predicate Unplannable(naming: Naming, event: Event, ts: seq<Target>) {
    !Consistent(Changes(ts)) || BranchRefused(naming, event, ts)
  }

  method PlanRepository(naming: Naming, event: Event, group: Group) returns (r: Result<RepositoryPlan, Error>)
    requires group.targets != [] && group.location == group.targets[0].location
    ensures r.Ok? ==> PlanOfGroup(naming, event, group, r.value)
    ensures !Consistent(Changes(group.targets)) <==> r == Err({IncompleteRule})
    ensures r.Err? ==> Unplannable(naming, event, group.targets) && (r.error == {IncompleteRule} || r.error == {})
  {
    var normalized := NormalizeManifestTargets(group.targets);
    if normalized.None? {
      return Err({IncompleteRule});
    }
    var envs := Environments(normalized.value);
    var branch := RepositoryBranchName(naming, event, BranchEnv(envs), group.location, normalized.value);
    if !ValidBranch(branch) {
      return Err({});
    }
    return Ok(RepositoryPlan(group.location, normalized.value, Join(envs, ","), branch));
  }

  predicate IsPlanError(ms: seq<Matched>, e: Option<Error>) {
    e == FirstLocationError(ms) || e == FirstTagError(ms) || e == Some({IncompleteRule}) || e == Some({})
  }

  /** Plans the event. Rules whose tag is refused are passed over; one rule that cannot
      be located, or two that contradict each other, fail the whole plan. */
  method Plan(naming: Naming, event: Event, ms: seq<Matched>, annotate: bool)
    returns (r: Result<seq<RepositoryPlan>, Option<Error>>)
    ensures FirstLocationError(ms).Some? ==> r == Err(FirstLocationError(ms))
    ensures r.Ok? ==> Located(ms) && Planned(naming, event, Accepted(ms, annotate), r.value)
    ensures FirstLocationError(ms).None? ==>
              Located(ms) && (Accepted(ms, annotate) == [] ==> r == Err(FirstTagError(ms)))
    ensures r.Err? ==> IsPlanError(ms, r.error)
    ensures r.Err? && FirstLocationError(ms).None? && Accepted(ms, annotate) != [] ==>
              exists k :: Unplannable(naming, event, InRepository(naming, Accepted(ms, annotate), k))
    ensures FirstLocationError(ms).None? ==>
              (exists k :: !Consistent(Changes(InRepository(naming, Accepted(ms, annotate), k)))) ==> r.Err?
  {
    var grouped, tagError := GroupByRepository(naming, ms, annotate);
    if grouped.Err? {
      return Err(Some(grouped.error));
    }
    ghost var accepted := Accepted(ms, annotate);
    if |grouped.value| == 0 {
      GroupsOrNone(naming, accepted, grouped.value);
      return Err(tagError);
    }
    GroupsOrdered(naming);
    var groups := Sorting.SortSlice(grouped.value, (g, h) => GroupAtMost(naming, g, h));
    GroupsStayGrouped(naming, accepted, grouped.value, groups);
    GroupsOrNone(naming, accepted, groups);
    ghost var at;
    r, at := PlanGroups(naming, event, accepted, groups);
    if r.Ok? {
      forall k ensures Consistent(Changes(InRepository(naming, accepted, k))) {
        PlannedIsConsistent(naming, event, accepted, r.value, k);
      }
    }
  }

  ghost predicate PlanOfGroup(naming: Naming, event: Event, g: Group, p: RepositoryPlan) {
    p.location == g.location && PlanFor(naming, event, g.targets, p)
  }

  predicate Pairwise<G, P>(r: (G, P) -> bool, gs: seq<G>, ps: seq<P>) {
    |gs| == |ps| && forall j :: 0 <= j < |gs| ==> r(gs[j], ps[j])
  }

  lemma PairwiseNext<G, P>(r: (G, P) -> bool, gs: seq<G>, i: nat, ps: seq<P>, p: P)
    requires i < |gs| && Pairwise(r, gs[..i], ps) && r(gs[i], p)
    ensures Pairwise(r, gs[..i + 1], ps + [p])
  {
  }

  /** Plans every group, up to one that has no plan; ok holds of a group and its plan. */
  method PlanEach(naming: Naming, event: Event, groups: seq<Group>, ghost ok: (Group, RepositoryPlan) -> bool)
    returns (r: Result<seq<RepositoryPlan>, Option<Error>>, ghost at: nat)
    requires forall i :: 0 <= i < |groups| ==>
               groups[i].targets != [] && groups[i].location == groups[i].targets[0].location
    requires forall g, p :: PlanOfGroup(naming, event, g, p) ==> ok(g, p)
    ensures r.Ok? ==> Pairwise(ok, groups, r.value)
    ensures r.Err? ==> r.error == Some({IncompleteRule}) || r.error == Some({})
    ensures r.Err? ==> at < |groups| && Unplannable(naming, event, groups[at].targets)
  {
    var plans: seq<RepositoryPlan> := [];
    for i := 0 to |groups|
      invariant Pairwise(ok, groups[..i], plans)
    {
      var planned := PlanRepository(naming, event, groups[i]);
      if planned.Err? {
        return Err(Some(planned.error)), i;
      }
      PairwiseNext(ok, groups, i, plans, planned.value);
      plans := plans + [planned.value];
    }
    assert groups[..|groups|] == groups;
    return Ok(plans), 0;
  }

  method PlanGroups(naming: Naming, event: Event, ghost accepted: seq<Target>, groups: seq<Group>)
    returns (r: Result<seq<RepositoryPlan>, Option<Error>>, ghost at: string)
    requires Grouped(naming, accepted, groups) && groups != []
    requires forall i, j :: 0 <= i < j < |groups| ==> Less(GroupKey(naming, groups[i]), GroupKey(naming, groups[j]))
    ensures r.Ok? ==> Planned(naming, event, accepted, r.value)
    ensures r.Err? ==> r.error == Some({IncompleteRule}) || r.error == Some({})
    ensures r.Err? ==> Unplannable(naming, event, InRepository(naming, accepted, at))
  {
    forall i | 0 <= i < |groups|
      ensures groups[i].targets != [] && groups[i].location == groups[i].targets[0].location {
      assert IsGroup(naming, accepted, groups[i]);
    }
    ghost var planOf := (g, p) => PlanOfGroup(naming, event, g, p);
    ghost var k;
    r, k := PlanEach(naming, event, groups, planOf);
    at := "";
    if r.Err? {
      assert IsGroup(naming, accepted, groups[k]);
      at := GroupKey(naming, groups[k]);
    } else {
      PlansFromGroups(naming, event, accepted, groups, r.value);
    }
  }

  lemma GroupsOrNone(naming: Naming, accepted: seq<Target>, groups: seq<Group>)
    requires Grouped(naming, accepted, groups)
    ensures accepted == [] <==> groups == []
  {
    if accepted != [] {
      assert HasGroup(naming, groups, KeyOf(naming, accepted[0]));
    }
    if groups != [] {
      assert IsGroup(naming, accepted, groups[0]);
    }
  }

  lemma PlansFromGroups(naming: Naming, event: Event, accepted: seq<Target>, groups: seq<Group>,
                        plans: seq<RepositoryPlan>)
    requires Grouped(naming, accepted, groups) && groups != [] && |plans| == |groups|
    requires forall i, j :: 0 <= i < j < |groups| ==> Less(GroupKey(naming, groups[i]), GroupKey(naming, groups[j]))
    requires forall j :: 0 <= j < |groups| ==> PlanOfGroup(naming, event, groups[j], plans[j])
    ensures Planned(naming, event, accepted, plans)
  {
    forall t | t in accepted ensures Covered(naming, plans, KeyOf(naming, t)) {
      var i :| 0 <= i < |groups| && GroupKey(naming, groups[i]) == KeyOf(naming, t);
      assert PlanOfGroup(naming, event, groups[i], plans[i]);
      assert RepositoryKey(naming, plans[i].location) == KeyOf(naming, t);
    }
    forall i, j | 0 <= i < j < |plans|
      ensures Less(RepositoryKey(naming, plans[i].location), RepositoryKey(naming, plans[j].location))
    {
      assert PlanOfGroup(naming, event, groups[i], plans[i]) && PlanOfGroup(naming, event, groups[j], plans[j]);
    }
    forall i | 0 <= i < |plans|
      ensures PlanFor(naming, event, InRepository(naming, accepted, RepositoryKey(naming, plans[i].location)), plans[i])
    {
      assert IsGroup(naming, accepted, groups[i]) && PlanOfGroup(naming, event, groups[i], plans[i]);
    }
  }

  /** Contradictory targets have no plan. */
  lemma PlannedIsConsistent(naming: Naming, event: Event, accepted: seq<Target>, plans: seq<RepositoryPlan>, k: string)
    requires Planned(naming, event, accepted, plans)
    ensures Consistent(Changes(InRepository(naming, accepted, k)))
  {
    var ts := InRepository(naming, accepted, k);
    if ts != [] {
      InRepositoryMember(naming, accepted, k, ts[0]);
      assert Covered(naming, plans, k);
      var i :| 0 <= i < |plans| && RepositoryKey(naming, plans[i].location) == k;
      NormalizedIsConsistent(ts, plans[i].targets);
    }
  }
}
