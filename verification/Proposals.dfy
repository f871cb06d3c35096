/** From a rule to the files on a branch: what a delivery without failures leaves behind for
    each rule that accepts the tag, said of the rule and not of its plan. */
module Proposals {
  import opened Text
  import opened Errors
  import opened Planning
  import opened Branches
  import opened Planner
  import opened Delivery
  import opened Redelivery
  import opened Service
  import Overlays
  import Rules
  import Scalar

  /** The rule covers the event, no rule covers it more specifically, and it accepts the tag. */
  ghost predicate Decides(rules: seq<Rules.Rule>, event: Event, rule: Rules.Rule) {
    && rule in rules && Rules.Covers(rule, event) && Rules.TagError(rule.settings, event.tag).None?
    && Rules.AtMostSpecific(rules, event, Rules.Literals(rule.segments))
  }

  /** The metadata block is written unless annotation is off or the rule opts out. */
  predicate Writes(annotate: bool, rule: Rules.Rule) { annotate && rule.settings.writeImageManifest != Some(false) }

  /** Every planned repository has a base that the calls answer from, and is as some run of
      earlier attempts may have left it: its branch absent, or with the complete update. */
  ghost predicate Settings(w: World, plans: seq<RepositoryPlan>, bases: map<string, Base>,
                           before: map<string, Remote>) {
    forall k :: 0 <= k < |plans| ==>
      var key := RepositoryKey(w.naming, plans[k].location);
      && key in bases && key in before && Faithful(bases[key], w.script(key))
      && Sane(bases[key], plans[k].branch, plans[k].targets, before[key])
  }

  /** The branch of the plan is proposed, or was by an earlier release. */
  predicate Proposed(event: Event, p: RepositoryPlan, remote: Remote) {
    var legacy := LegacyBranchName(event, p.env, p.targets);
    remote.open[p.branch] > 0 || (legacy.Some? && remote.open[legacy.value] > 0)
  }

  /** Every directory the location resolves to on the base has its right file on the branch,
      or is right already. */
  ghost predicate Carried(base: Base, l: Location, writes: bool, remote: Remote, branch: string) {
    && branch in remote.branches
    && base.resolve(l.dir).Ok? && base.resolve(l.dir).value != []
    && forall d :: d in base.resolve(l.dir).value ==> UpToDate(base, d, writes, remote.branches[branch].files)
  }

  // ---- Deliveries without failures ----

  /** No call for the plans fails. */
  ghost predicate AllFailureFree(w: World, event: Event, plans: seq<RepositoryPlan>, before: map<string, Remote>) {
    forall k :: 0 <= k < |plans| ==>
      var job := JobOf(w, event, plans[k]); job.key in before && FailureFree(job.task, job.script)
  }

  lemma PlansAreOpen(w: World, event: Event, plans: seq<RepositoryPlan>, manifests: seq<seq<Target>>,
                     results: seq<Option<Error>>,
                     before: map<string, Remote>, after: map<string, Remote>)
    requires Delivered(before, JobsOf(w, event, plans), manifests, results, after)
    requires AllFailureFree(w, event, plans, before)
    ensures Acknowledged(JoinErrors(Failures(results)))
    ensures forall k :: 0 <= k < |plans| ==>
              var key := RepositoryKey(w.naming, plans[k].location);
              key in after && HasOpen(after[key], TaskOf(event, plans[k]))
  {
    var jobs := JobsOf(w, event, plans);
    forall k | 0 <= k < |jobs|
      ensures jobs[k].key in before && FailureFree(jobs[k].task, jobs[k].script) {
      assert jobs[k] == JobOf(w, event, plans[k]);
    }
    FailureFreeDeliveryOpensAll(before, jobs, manifests, results, after);
    forall k | 0 <= k < |plans|
      ensures var key := RepositoryKey(w.naming, plans[k].location);
              key in after && HasOpen(after[key], TaskOf(event, plans[k]))
    {
      assert jobs[k] == JobOf(w, event, plans[k]);
    }
  }

  lemma PlanOfTarget(w: World, event: Event, accepted: seq<Target>, plans: seq<RepositoryPlan>, target: Target)
    returns (k: nat)
    requires Planned(w.naming, event, accepted, plans) && target in accepted
    ensures k < |plans| && RepositoryKey(w.naming, plans[k].location) == KeyOf(w.naming, target)
            && ChangeOf(target) in Changes(plans[k].targets)
  {
    PlansPartitionChanges(w.naming, event, accepted, plans, target);
    k :| 0 <= k < |plans| && RepositoryKey(w.naming, plans[k].location) == KeyOf(w.naming, target)
        && ChangeOf(target) in Changes(plans[k].targets);
  }

  // ---- The plan of a rule ----

  /** A rule that decides is among those matched, with its tag accepted and its location. */
  lemma DecidingIsMatched(w: World, rules: seq<Rules.Rule>, event: Event, annotate: bool, t: Trace, rule: Rules.Rule)
    returns (i: nat)
    requires PlannedFrom(w, rules, event, annotate, t) && Decides(rules, event, rule)
    ensures i < |t.ms| && Rules.MatchedFrom(w.parse, rule, event, t.ms[i]) && t.ms[i].tagError.None?
  {
    var best := Rules.Covering(rules, event, t.best);
    assert Accepted(t.ms, annotate) != [] by {
      assert PlanFor(w.naming, event, InRepository(w.naming, Accepted(t.ms, annotate),
                                                   RepositoryKey(w.naming, t.plans[0].location)),
                     t.plans[0]);
    }
    assert best != [];
    Rules.CoveringHas(rules, event, t.best, best[0]);
    var k :| 0 <= k < |rules| && rules[k] == best[0];
    var j :| 0 <= j < |rules| && rules[j] == rule;
    assert Rules.Literals(rules[k].segments) <= Rules.Literals(rule.segments);
    assert Rules.Literals(rules[j].segments) <= t.best;
    Rules.CoveringHas(rules, event, t.best, rule);
    i :| 0 <= i < |best| && best[i] == rule;
  }

  /** Its plan: in the repository of its location, with its directory among the targets. */
  lemma DecidingIsPlanned(w: World, rules: seq<Rules.Rule>, event: Event, annotate: bool, t: Trace, rule: Rules.Rule)
    returns (k: nat, l: Location, n: nat)
    requires PlannedFrom(w, rules, event, annotate, t) && Decides(rules, event, rule)
    ensures Rules.IsLocation(w.parse, rule, event, Ok(l))
    ensures k < |t.plans| && RepositoryKey(w.naming, t.plans[k].location) == RepositoryKey(w.naming, l)
    ensures n < |t.plans[k].targets| && t.plans[k].targets[n].location.dir == l.dir
    ensures t.plans[k].targets[n].env == rule.settings.env
    ensures t.plans[k].targets[n].writesImageManifest == Writes(annotate, rule)
  {
    var i := DecidingIsMatched(w, rules, event, annotate, t, rule);
    AcceptedHasRule(t.ms, annotate, i);
    l := t.ms[i].location.value;
    k := PlanOfTarget(w, event, Accepted(t.ms, annotate), t.plans, TargetOf(t.ms[i], annotate));
    var cs := Changes(t.plans[k].targets);
    n :| 0 <= n < |cs| && cs[n] == ChangeOf(TargetOf(t.ms[i], annotate));
  }

  // ---- What the delivery leaves behind ----

  lemma PlanIsCarried(w: World, event: Event, plans: seq<RepositoryPlan>, bases: map<string, Base>,
                      manifests: seq<seq<Target>>, results: seq<Option<Error>>,
                      before: map<string, Remote>, after: map<string, Remote>, k: nat)
    requires Delivered(before, JobsOf(w, event, plans), manifests, results, after)
    requires AllFailureFree(w, event, plans, before) && Settings(w, plans, bases, before) && k < |plans|
    ensures var key := RepositoryKey(w.naming, plans[k].location);
            && key in after && Proposed(event, plans[k], after[key])
            && Sane(bases[key], plans[k].branch, plans[k].targets, after[key])
  {
    var key := RepositoryKey(w.naming, plans[k].location);
    var jobs := JobsOf(w, event, plans);
    assert jobs[k] == JobOf(w, event, plans[k]);
    assert Attempted(before, jobs[k], manifests[k], after, results[k]);
    var task := TaskOf(event, plans[k]);
    assert task.branch == plans[k].branch && task.targets == plans[k].targets;
    AttemptStaysSane(bases[key], before[key], task, w.script(key), manifests[k]);
    FailureFreeAttemptOpens(before[key], task, w.script(key), manifests[k]);
  }

  /** When no call fails, every rule that decides ends with its branch proposed in the
      repository of its location; and if that is by this release, the branch has the right
      file for every directory the location resolves to, unless the base has it. */
  lemma EveryAcceptedRuleIsProposed(w: World, rules: seq<Rules.Rule>, event: Event, annotate: bool, t: Trace,
                              bases: map<string, Base>, before: map<string, Remote>, after: map<string, Remote>,
                              rule: Rules.Rule) returns (k: nat, l: Location)
    requires PlannedFrom(w, rules, event, annotate, t) && Decides(rules, event, rule)
    requires Delivered(before, JobsOf(w, event, t.plans), t.manifests, t.results, after)
    requires AllFailureFree(w, event, t.plans, before) && Settings(w, t.plans, bases, before)
    ensures Acknowledged(JoinErrors(Failures(t.results)))
    ensures Rules.IsLocation(w.parse, rule, event, Ok(l)) && k < |t.plans|
    ensures var key, p := RepositoryKey(w.naming, l), t.plans[k];
            && RepositoryKey(w.naming, p.location) == key && key in bases && key in after
            && Proposed(event, p, after[key])
            && (after[key].open[p.branch] > 0 ==>
                  Carried(bases[key], l, Writes(annotate, rule), after[key], p.branch))
  {
    var n;
    k, l, n := DecidingIsPlanned(w, rules, event, annotate, t, rule);
    PlanIsCarried(w, event, t.plans, bases, t.manifests, t.results, before, after, k);
    PlansAreOpen(w, event, t.plans, t.manifests, t.results, before, after);
    var key, p := RepositoryKey(w.naming, l), t.plans[k];
    if after[key].open[p.branch] > 0 {
      var files := after[key].branches[p.branch].files;
      assert CompleteUpdate(bases[key], p.targets, files);
      assert Resolves(bases[key].resolve, p.targets[n]);
      forall d | d in bases[key].resolve(l.dir).value
        ensures UpToDate(bases[key], d, Writes(annotate, rule), files)
      {
        assert ResolvesTo(bases[key].resolve, p.targets[n], d);
      }
    }
  }

  // ---- In the files ----

  /** Every planned repository answers from a tree that can be read, for the push of the event. */
  ghost predicate TreeSettings(w: World, event: Event, plans: seq<RepositoryPlan>, trees: map<string, Overlays.Tree>,
                               p: Overlays.Push, before: map<string, Remote>) {
    && Scalar.Sound(p.lib) && Overlays.Marked(p)
    && p.image == event.host + "/" + event.repository && p.newTag == event.tag
    && forall k :: 0 <= k < |plans| ==>
         var key := RepositoryKey(w.naming, plans[k].location);
         && key in trees && key in before && Overlays.ReadableTree(trees[key])
         && Overlays.AnswersFrom(trees[key], p, w.script(key))
         && Sane(Overlays.BaseOf(trees[key], p), plans[k].branch, plans[k].targets, before[key])
  }

  /** Every manifest the path resolves to in the tree reads as pushed on the branch, or
      carries the tag already. */
  ghost predicate TagOnBranch(tree: Overlays.Tree, p: Overlays.Push, path: string, writes: bool, remote: Remote,
                              branch: string) {
    && branch in remote.branches
    && forall dirs :: Overlays.PathResolvesTo(tree.root, path, dirs) ==>
         forall d :: d in dirs ==> Overlays.DirectoryUpdated(tree, p, d, writes, remote.branches[branch].files)
  }

  ghost function BasesOf(trees: map<string, Overlays.Tree>, p: Overlays.Push): map<string, Base> {
    map key | key in trees :: Overlays.BaseOf(trees[key], p)
  }

  lemma TreesSettle(w: World, event: Event, plans: seq<RepositoryPlan>, trees: map<string, Overlays.Tree>,
                    p: Overlays.Push, before: map<string, Remote>)
    requires TreeSettings(w, event, plans, trees, p, before)
    ensures Settings(w, plans, BasesOf(trees, p), before)
  {
    forall k | 0 <= k < |plans|
      ensures Faithful(BasesOf(trees, p)[RepositoryKey(w.naming, plans[k].location)],
                       w.script(RepositoryKey(w.naming, plans[k].location)))
    {
      var key := RepositoryKey(w.naming, plans[k].location);
      Overlays.AnswersAreFaithful(trees[key], p, w.script(key));
    }
  }

  /** The same in the texts of the files: on the branch proposed for a rule that decides,
      every manifest its location resolves to reads as the pushed tag. */
  lemma TagReachesTheFiles(w: World, rules: seq<Rules.Rule>, event: Event, annotate: bool, t: Trace,
                           trees: map<string, Overlays.Tree>, p: Overlays.Push,
                           before: map<string, Remote>, after: map<string, Remote>, rule: Rules.Rule)
    returns (k: nat, l: Location)
    requires PlannedFrom(w, rules, event, annotate, t) && Decides(rules, event, rule)
    requires Delivered(before, JobsOf(w, event, t.plans), t.manifests, t.results, after)
    requires AllFailureFree(w, event, t.plans, before) && TreeSettings(w, event, t.plans, trees, p, before)
    ensures Rules.IsLocation(w.parse, rule, event, Ok(l)) && k < |t.plans|
    ensures var key, plan := RepositoryKey(w.naming, l), t.plans[k];
            && key in trees && key in after && Proposed(event, plan, after[key])
            && (after[key].open[plan.branch] > 0 ==>
                  TagOnBranch(trees[key], p, l.dir, Writes(annotate, rule), after[key],
                              plan.branch))
  {
    TreesSettle(w, event, t.plans, trees, p, before);
    k, l := EveryAcceptedRuleIsProposed(w, rules, event, annotate, t, BasesOf(trees, p), before, after, rule);
    var key := RepositoryKey(w.naming, l);
    var writes := Writes(annotate, rule);
    if after[key].open[t.plans[k].branch] > 0 {
      CarriedInFiles(trees[key], p, l, writes, after[key], t.plans[k].branch);
    }
  }

  lemma CarriedInFiles(tree: Overlays.Tree, p: Overlays.Push, l: Location, writes: bool, remote: Remote, branch: string)
    requires Carried(Overlays.BaseOf(tree, p), l, writes, remote, branch)
    ensures TagOnBranch(tree, p, l.dir, writes, remote, branch)
  {
    forall dirs | Overlays.PathResolvesTo(tree.root, l.dir, dirs)
      ensures forall d :: d in dirs ==> Overlays.DirectoryUpdated(tree, p, d, writes, remote.branches[branch].files)
    {
      Overlays.ResolvesOnce(tree.root, l.dir, dirs, Overlays.Resolution(tree, l.dir).value);
      forall d | d in dirs ensures Overlays.DirectoryUpdated(tree, p, d, writes, remote.branches[branch].files) {
        assert UpToDate(Overlays.BaseOf(tree, p), d, writes, remote.branches[branch].files);
      }
    }
  }

  /** While a pull request of an earlier release is open for the same update, the attempt
      does nothing at all. */
  lemma LegacyBlocks(w: World, event: Event, plans: seq<RepositoryPlan>, manifests: seq<seq<Target>>,
                     results: seq<Option<Error>>, before: map<string, Remote>, after: map<string, Remote>, k: nat)
    requires Delivered(before, JobsOf(w, event, plans), manifests, results, after) && k < |plans|
    requires RepositoryKey(w.naming, plans[k].location) in before
    requires Proposed(event, plans[k], before[RepositoryKey(w.naming, plans[k].location)])
    ensures var key := RepositoryKey(w.naming, plans[k].location); key in after && after[key] == before[key]
    ensures results[k].Some? && (IsRetryable(results[k].value) || results[k] == Some({DuplicatePullRequest}))
  {
    var key := RepositoryKey(w.naming, plans[k].location);
    var jobs := JobsOf(w, event, plans);
    assert jobs[k] == JobOf(w, event, plans[k]);
    assert Attempted(before, jobs[k], manifests[k], after, results[k]);
    var task := TaskOf(event, plans[k]);
    LookupOutcome(before[key].open, Heads(task), w.script(key).lookup, 0);
    if Lookup(before[key].open, Heads(task), w.script(key).lookup, 0).None? {
      NoneIsOpen(before[key], task, w.script(key).lookup);
      assert false;
    }
  }
}
