/** One event from the queue to the pull requests: Handle of
    internal/application/updater/service.go, and process of
    internal/infrastructure/queue/sqs/source.go. */
module Service {
  import opened Text
  import opened Errors
  import opened Planning
  import opened Branches
  import opened Planner
  import opened Delivery
  import opened Redelivery
  import ManifestURL
  import Rules

  /** What the service is given: the URL parser, names, and for every manifest repository
      how its calls turn out and whether its messages render. */
  datatype World = World(
    parse: string -> Option<ManifestURL.URL>,
    naming: Naming,
    script: string -> Script,
    rendering: string -> Option<Error>)

  function TaskOf(event: Event, p: RepositoryPlan): Task {
    Task(p.branch, LegacyBranchName(event, p.env, p.targets), p.targets)
  }

  function JobOf(w: World, event: Event, p: RepositoryPlan): Job {
    var key := RepositoryKey(w.naming, p.location);
    Job(key, TaskOf(event, p), w.script(key), w.rendering(key))
  }

  function JobsOf(w: World, event: Event, plans: seq<RepositoryPlan>): (jobs: seq<Job>)
    ensures |jobs| == |plans| && forall i :: 0 <= i < |plans| ==> jobs[i] == JobOf(w, event, plans[i])
  {
    seq(|plans|, i requires 0 <= i < |plans| => JobOf(w, event, plans[i]))
  }

  lemma PlannedKeysAreDistinct(w: World, event: Event, accepted: seq<Target>, plans: seq<RepositoryPlan>)
    requires Planned(w.naming, event, accepted, plans)
    ensures DistinctKeys(JobsOf(w, event, plans))
  {
    var jobs := JobsOf(w, event, plans);
    forall i, j | 0 <= i < j < |jobs| ensures jobs[i].key != jobs[j].key {
      LessAsymmetric(RepositoryKey(w.naming, plans[i].location), RepositoryKey(w.naming, plans[j].location));
    }
  }

  /** The manifest repositories of the rules are on the host. */
  ghost predicate Hosted(w: World, rules: seq<Rules.Rule>, event: Event, remotes: map<string, Remote>) {
    forall i, l :: 0 <= i < |rules| && Rules.IsLocation(w.parse, rules[i], event, Ok(l)) ==>
        RepositoryKey(w.naming, l) in remotes
  }

  lemma {:induction false} AcceptedFromRule(ms: seq<Matched>, annotate: bool, t: Target) returns (i: nat)
    requires Located(ms) && t in Accepted(ms, annotate)
    ensures i < |ms| && ms[i].tagError.None? && ms[i].location.Ok? && t == TargetOf(ms[i], annotate)
  {
    i := |ms| - 1;
    if !(ms[i].tagError.None? && t == TargetOf(ms[i], annotate)) {
      i := AcceptedFromRule(ms[..i], annotate, t);
    }
  }

  lemma {:induction false} AcceptedHasRule(ms: seq<Matched>, annotate: bool, i: nat)
    requires Located(ms) && i < |ms| && ms[i].tagError.None?
    ensures TargetOf(ms[i], annotate) in Accepted(ms, annotate)
  {
    if i < |ms| - 1 {
      AcceptedHasRule(ms[..|ms| - 1], annotate, i);
    }
  }

  lemma {:induction false} CoveringIsPart(rules: seq<Rules.Rule>, event: Event, best: int, rule: Rules.Rule)
    requires rule in Rules.Covering(rules, event, best)
    ensures rule in rules
  {
    if rules != [] {
      var last := rules[|rules| - 1];
      if rule in Rules.Covering(rules[..|rules| - 1], event, best) {
        CoveringIsPart(rules[..|rules| - 1], event, best, rule);
      }
    }
  }

  lemma PlanIsHosted(w: World, rules: seq<Rules.Rule>, event: Event, best: int, ms: seq<Matched>, annotate: bool,
                     plans: seq<RepositoryPlan>, remotes: map<string, Remote>, k: nat)
    requires Hosted(w, rules, event, remotes)
    requires Rules.AllMatched(w.parse, Rules.Covering(rules, event, best), event, ms)
    requires Located(ms) && Planned(w.naming, event, Accepted(ms, annotate), plans) && k < |plans|
    ensures RepositoryKey(w.naming, plans[k].location) in remotes
  {
    var key := RepositoryKey(w.naming, plans[k].location);
    var ts := InRepository(w.naming, Accepted(ms, annotate), key);
    assert PlanFor(w.naming, event, ts, plans[k]);
    InRepositoryMember(w.naming, Accepted(ms, annotate), key, ts[0]);
    var i := AcceptedFromRule(ms, annotate, ts[0]);
    var rule := Rules.Covering(rules, event, best)[i];
    assert Rules.MatchedFrom(w.parse, rule, event, ms[i]);
    CoveringIsPart(rules, event, best, rule);
    var j :| 0 <= j < |rules| && rules[j] == rule;
    assert Rules.IsLocation(w.parse, rules[j], event, Ok(plans[k].location));
  }

  lemma {:induction false} TagErrorIsTerminal(ms: seq<Matched>)
    requires forall i :: 0 <= i < |ms| ==> (ms[i].tagError.Some? ==> !IsRetryable(ms[i].tagError.value))
    ensures FirstTagError(ms).Some? ==> !IsRetryable(FirstTagError(ms).value)
  {
    if ms != [] {
      TagErrorIsTerminal(ms[..|ms| - 1]);
    }
  }

  lemma {:induction false} LocationErrorIsTerminal(ms: seq<Matched>)
    requires forall i :: 0 <= i < |ms| ==> (ms[i].location.Err? ==> !IsRetryable(ms[i].location.error))
    ensures FirstLocationError(ms).Some? ==> !IsRetryable(FirstLocationError(ms).value)
  {
    if ms != [] {
      LocationErrorIsTerminal(ms[..|ms| - 1]);
    }
  }

  lemma MatchedErrorsAreTerminal(w: World, rules: seq<Rules.Rule>, event: Event, ms: seq<Matched>)
    requires Rules.AllMatched(w.parse, rules, event, ms)
    ensures FirstTagError(ms).Some? ==> !IsRetryable(FirstTagError(ms).value)
    ensures FirstLocationError(ms).Some? ==> !IsRetryable(FirstLocationError(ms).value)
  {
    forall i | 0 <= i < |ms|
      ensures ms[i].tagError.Some? ==> !IsRetryable(ms[i].tagError.value)
      ensures ms[i].location.Err? ==> !IsRetryable(ms[i].location.error)
    {
      assert Rules.MatchedFrom(w.parse, rules[i], event, ms[i]);
    }
    TagErrorIsTerminal(ms);
    LocationErrorIsTerminal(ms);
  }

  lemma PlanErrorIsTerminal(w: World, rules: seq<Rules.Rule>, event: Event, ms: seq<Matched>, e: Option<Error>)
    requires Rules.AllMatched(w.parse, rules, event, ms) && IsPlanError(ms, e)
    ensures Acknowledged(e)
  {
    MatchedErrorsAreTerminal(w, rules, event, ms);
  }

  /** What handling an event leaves behind for the proof. */
  datatype Trace =
    | Unmatched
    | Refused(best: int, ms: seq<Matched>, at: string)
    | Trace(best: int, ms: seq<Matched>, plans: seq<RepositoryPlan>, manifests: seq<seq<Target>>,
            results: seq<Option<Error>>)

  /** The plan covers what the most specific rules accept. */
  ghost predicate PlannedFrom(w: World, rules: seq<Rules.Rule>, event: Event, annotate: bool, t: Trace) {
    && t.Trace?
    && Rules.AtMostSpecific(rules, event, t.best)
    && Rules.AllMatched(w.parse, Rules.Covering(rules, event, t.best), event, t.ms)
    && Located(t.ms) && Planned(w.naming, event, Accepted(t.ms, annotate), t.plans)
  }

  /** The most specific rules were matched but give no plan, for one of four reasons: an
      accepted rule has no location, no rule accepts the tag, or the targets of the
      repository t.at contradict each other or make up no valid branch. */
  ghost predicate RefusedFrom(w: World, rules: seq<Rules.Rule>, event: Event, annotate: bool, t: Trace,
                              r: Option<Error>) {
    && t.Refused?
    && Rules.AtMostSpecific(rules, event, t.best)
    && Rules.AllMatched(w.parse, Rules.Covering(rules, event, t.best), event, t.ms)
    && if FirstLocationError(t.ms).Some? then r == FirstLocationError(t.ms)
       else Located(t.ms) &&
            if Accepted(t.ms, annotate) == [] then r == FirstTagError(t.ms)
            else Unplannable(w.naming, event, InRepository(w.naming, Accepted(t.ms, annotate), t.at))
  }

  lemma RefusalOf(w: World, rules: seq<Rules.Rule>, event: Event, annotate: bool, best: int, ms: seq<Matched>,
                  r: Option<Error>) returns (t: Trace)
    requires Rules.AtMostSpecific(rules, event, best)
    requires Rules.AllMatched(w.parse, Rules.Covering(rules, event, best), event, ms)
    requires FirstLocationError(ms).Some? ==> r == FirstLocationError(ms)
    requires FirstLocationError(ms).None? ==> Located(ms)
    requires FirstLocationError(ms).None? && Accepted(ms, annotate) == [] ==> r == FirstTagError(ms)
    requires FirstLocationError(ms).None? && Accepted(ms, annotate) != [] ==>
               exists k :: Unplannable(w.naming, event, InRepository(w.naming, Accepted(ms, annotate), k))
    ensures RefusedFrom(w, rules, event, annotate, t, r)
  {
    t := Refused(best, ms, "");
    if FirstLocationError(ms).None? && Accepted(ms, annotate) != [] {
      var k :| Unplannable(w.naming, event, InRepository(w.naming, Accepted(ms, annotate), k));
      t := Refused(best, ms, k);
    }
  }

  /** Every change of an event is worked out before a remote call is made. */
  method PlanEvent(w: World, rules: seq<Rules.Rule>, event: Event, annotate: bool)
    returns (r: Result<seq<RepositoryPlan>, Option<Error>>, ghost t: Trace)
    ensures t.Unmatched? <==> Rules.NoneCovers(rules, event)
    ensures t.Unmatched? ==> r == Err(Some({NoMatchingRule}))
    ensures t.Refused? ==> r.Err? && Acknowledged(r.error) && RefusedFrom(w, rules, event, annotate, t, r.error)
    ensures t.Trace? ==> r == Ok(t.plans) && PlannedFrom(w, rules, event, annotate, t)
  {
    t := Unmatched;
    var matched;
    ghost var best;
    matched, best := Rules.MatchRules(w.parse, rules, event);
    if matched.None? {
      return Err(Some({NoMatchingRule})), t;
    }
    var ms := matched.value;
    r := Plan(w.naming, event, ms, annotate);
    if r.Err? {
      PlanErrorIsTerminal(w, Rules.Covering(rules, event, best), event, ms, r.error);
      t := RefusalOf(w, rules, event, annotate, best, ms, r.error);
    } else {
      t := Trace(best, ms, r.value, [], []);
    }
  }

  /** An event that cannot be planned touches no remote and is never retried; one that can
      is carried out on every repository, unless a message cannot be rendered. */
  method Handle(host: Host, w: World, rules: seq<Rules.Rule>, event: Event, annotate: bool)
    returns (r: Option<Error>, ghost t: Trace)
    requires Hosted(w, rules, event, host.remotes)
    modifies host
    ensures t.Unmatched? <==> Rules.NoneCovers(rules, event)
    ensures t.Unmatched? ==> r == Some({NoMatchingRule})
    ensures t.Refused? ==> RefusedFrom(w, rules, event, annotate, t, r)
    ensures !t.Trace? ==> host.remotes == old(host.remotes) && Acknowledged(r)
    ensures t.Trace? ==> PlannedFrom(w, rules, event, annotate, t)
    ensures t.Trace? ==>
              var jobs := JobsOf(w, event, t.plans);
              if FirstRenderingError(jobs).Some? then r == FirstRenderingError(jobs)
                  && host.remotes == old(host.remotes)
              else r == JoinErrors(Failures(t.results)) && Delivered(old(host.remotes), jobs, t.manifests, t.results,
                                                                     host.remotes)
  {
    var planned;
    planned, t := PlanEvent(w, rules, event, annotate);
    if planned.Err? {
      return planned.error, t;
    }
    var jobs := JobsOf(w, event, planned.value);
    PlannedKeysAreDistinct(w, event, Accepted(t.ms, annotate), planned.value);
    forall k | 0 <= k < |jobs| ensures jobs[k].key in host.remotes {
      PlanIsHosted(w, rules, event, t.best, t.ms, annotate, planned.value, host.remotes, k);
    }
    ghost var manifests, results;
    r, manifests, results := Apply(host, jobs);
    t := t.(manifests := manifests, results := results);
  }

  /** How the call that deletes a message turns out: answered, or broken off with or
      without having reached the queue. */
  datatype DeleteReply = Deleted | DeleteBroken(arrives: bool)

  predicate DeleteArrives(reply: DeleteReply) { reply.Deleted? || reply.arrives }

  /** The queue: the receipt handles of the messages that will be delivered again. */
  class Queue {
    var pending: set<string>

    /** A message without a receipt handle cannot be deleted, and a failure to delete one
        is only logged. */
    method Acknowledge(receiptHandle: string, reply: DeleteReply)
      modifies this
      ensures pending == if receiptHandle != "" && (reply == Deleted || reply == DeleteBroken(true))
                         then old(pending) - {receiptHandle} else old(pending)
    {
      if receiptHandle == "" {
        return;
      }
      if DeleteArrives(reply) {
        pending := pending - {receiptHandle};
      }
    }
  }

  /** One message: an unreadable payload is finished, and an event is left on the queue
      exactly when it was carried out and some repository ended with a retryable failure
      (or its messages failed to render with one), or else its deletion did not get through. */
  method Process(queue: Queue, host: Host, w: World, rules: seq<Rules.Rule>, receiptHandle: string,
                 decoded: Option<Event>,
                 annotate: bool, reply: DeleteReply)
    returns (finished: bool, ghost t: Trace)
    requires decoded.Some? ==> Hosted(w, rules, decoded.value, host.remotes)
    modifies queue, host
    ensures queue.pending == if finished && receiptHandle != "" && (reply == Deleted || reply == DeleteBroken(true))
                             then old(queue.pending) - {receiptHandle} else old(queue.pending)
    ensures decoded.None? ==> !t.Trace?
    ensures !t.Trace? ==> finished && host.remotes == old(host.remotes)
    ensures decoded.Some? && t.Unmatched? ==> Rules.NoneCovers(rules, decoded.value)
    ensures decoded.Some? && t.Refused? ==> exists r :: RefusedFrom(w, rules, decoded.value, annotate, t, r)
    ensures decoded.Some? && t.Trace? ==> PlannedFrom(w, rules, decoded.value, annotate, t)
    ensures decoded.Some? && t.Trace? ==>
              var jobs := JobsOf(w, decoded.value, t.plans);
              var rendering := FirstRenderingError(jobs);
              if rendering.Some? then finished == Acknowledged(rendering) && host.remotes == old(host.remotes)
              else
                && Delivered(old(host.remotes), jobs, t.manifests, t.results, host.remotes)
                && (finished <==> forall i :: 0 <= i < |t.results| ==> Acknowledged(t.results[i]))
  {
    t := Unmatched;
    if decoded.None? {
      queue.Acknowledge(receiptHandle, reply);
      return true, t;
    }
    var r;
    r, t := Handle(host, w, rules, decoded.value, annotate);
    if t.Trace? {
      AcknowledgedExactly(t.results);
    }
    if r.Some? && IsRetryable(r.value) {
      return false, t;
    }
    queue.Acknowledge(receiptHandle, reply);
    return true, t;
  }
}
