/** When an attempt is not repeated: the terminal outcomes of applyRepository in
    internal/application/updater/service.go, each with what brought it about. */
module Endings {
  import opened Text
  import opened Errors
  import opened Planning
  import opened Delivery
  import opened Redelivery

  /** A pull request for the update is found open. */
  predicate FoundOpen(after: Remote, task: Task, r: Option<Error>) {
    r == Some({DuplicatePullRequest}) && HasOpen(after, task)
  }

  predicate NamesNoManifest(e: Error) { ManifestNotFound in e || InvalidManifest in e || IncompleteRule in e }

  predicate NamesNoPatch(e: Error) { ManifestNotFound in e || InvalidManifest in e || ImageNotManaged in e }

  /** A target resolves to an error that says so, or to no directory. */
  ghost predicate TargetRefused(task: Task, s: Script, r: Option<Error>) {
    exists i :: 0 <= i < |task.targets| &&
      var outcome := s.resolve(task.targets[i].location.dir);
      if outcome.Err? then r == Some(outcome.error) && NamesNoManifest(outcome.error)
      else outcome.value == [] && r == Some({ManifestNotFound})
  }

  ghost predicate AllResolve(task: Task, s: Script) {
    forall i :: 0 <= i < |task.targets| ==> Resolves(s.resolve, task.targets[i])
  }

  /** Two targets ask for different changes of one directory. */
  ghost predicate Contradiction(task: Task, s: Script, r: Option<Error>) {
    AllResolve(task, s) && !Agree(s.resolve, task.targets) && r == Some({IncompleteRule})
  }

  /** A manifest cannot be patched. */
  ghost predicate ManifestRefused(task: Task, s: Script, r: Option<Error>) {
    exists c :: Asked(s.resolve, task.targets, c) &&
      var outcome := s.patch(c.dir, c.writesImageManifest);
      outcome.Err? && r == Some(outcome.error) && NamesNoPatch(outcome.error) && NoDifference !in outcome.error
  }

  ghost predicate SomeDiffers(task: Task, s: Script) {
    exists c :: Asked(s.resolve, task.targets, c) && s.patch(c.dir, c.writesImageManifest).Ok?
  }

  ghost predicate AllPatch(task: Task, s: Script) {
    forall c :: Asked(s.resolve, task.targets, c) ==> Patchable(s, c)
  }

  /** Every manifest is as it should be, or the commit turns out empty. */
  ghost predicate NothingToDo(task: Task, s: Script, r: Option<Error>) {
    AllPatch(task, s) &&
    if SomeDiffers(task, s) then s.commit.Some? && NoDifference in s.commit.value && r == s.commit
    else r == Some({NoDifference})
  }

  /** The pull request was created, or rejected as invalid. */
  predicate Answered(after: Remote, task: Task, s: Script, r: Option<Error>) {
    s.create.CreateAnswered? &&
    if 200 <= s.create.status < 300 then r == None && after.open[task.branch] > 0
    else s.create.status in {400, 422} && r == Some({InvalidPullRequest})
  }

  /** Why an attempt that ended with r needs no repetition, call by call. */
  ghost predicate Settled(after: Remote, task: Task, s: Script, r: Option<Error>) {
    || FoundOpen(after, task, r)
    || (s.checkout.None? &&
        (TargetRefused(task, s, r) || Contradiction(task, s, r) ||
         (AllResolve(task, s) && Agree(s.resolve, task.targets) && s.createBranch.None? &&
          (ManifestRefused(task, s, r) || NothingToDo(task, s, r) ||
           (AllPatch(task, s) && SomeDiffers(task, s) && s.commit.None? && s.push.PushAnswered? &&
            Answered(after, task, s, r))))))
  }

  // ---- Resolving and patching, failure by failure ----

  lemma {:induction false} ResolveFailure(targets: seq<Target>, resolve: string -> Result<seq<string>, Error>)
    returns (i: nat)
    requires ResolveAll(targets, resolve).Err?
    ensures i < |targets|
    ensures var outcome, e := resolve(targets[i].location.dir), ResolveAll(targets, resolve).error;
            if outcome.Ok? then outcome.value == [] && e == {ManifestNotFound}
            else if NamesNoManifest(outcome.error) then e == outcome.error
            else RetryableMark in e
  {
    i := |targets| - 1;
    if ResolveAll(targets[..i], resolve).Err? {
      i := ResolveFailure(targets[..i], resolve);
    }
  }

  lemma {:induction false} PatchFailure(manifests: seq<Target>, patch: (string, bool) -> Result<string, Error>)
    returns (i: nat)
    requires PatchAll(manifests, patch).Err?
    ensures i < |manifests|
    ensures var outcome, e := patch(manifests[i].location.dir, manifests[i].writesImageManifest),
              PatchAll(manifests, patch).error;
            && outcome.Err? && NoDifference !in outcome.error
            && if NamesNoPatch(outcome.error) then e == outcome.error else RetryableMark in e
  {
    i := |manifests| - 1;
    if PatchAll(manifests[..i], patch).Err? {
      i := PatchFailure(manifests[..i], patch);
    }
  }

  /** What was patched, of the manifests that stand for the changes asked for. */
  lemma PatchedAll(task: Task, s: Script, manifests: seq<Target>, resolved: seq<Target>)
    requires ResolveAll(task.targets, s.resolve) == Ok(resolved) && Normalized(resolved, manifests)
    requires PatchAll(manifests, s.patch).Ok?
    ensures AllPatch(task, s)
    ensures PatchAll(manifests, s.patch).value != map[] <==> SomeDiffers(task, s)
  {
    var files := PatchAll(manifests, s.patch).value;
    ResolvedExactly(task.targets, s.resolve);
    PatchAllCommits(manifests, s);
    forall c | Asked(s.resolve, task.targets, c) ensures PatchedInto(s, c, files) {
      assert c in Changes(manifests);
      var i :| 0 <= i < |manifests| && Changes(manifests)[i] == c;
    }
    if files != map[] {
      var d :| d in files;
      var i :| 0 <= i < |manifests| && manifests[i].location.dir == d;
      assert Changes(manifests)[i] in Changes(manifests);
      assert PatchedInto(s, ChangeOf(manifests[i]), files);
      assert Asked(s.resolve, task.targets, ChangeOf(manifests[i]));
    }
    if c :| Asked(s.resolve, task.targets, c) && s.patch(c.dir, c.writesImageManifest).Ok? {
      assert PatchedInto(s, c, files);
    }
  }

  // ---- Acknowledged is settled ----

  lemma RefusedByTargets(task: Task, s: Script)
    requires ResolveAll(task.targets, s.resolve).Err? && RetryableMark !in ResolveAll(task.targets, s.resolve).error
    ensures TargetRefused(task, s, Some(ResolveAll(task.targets, s.resolve).error))
  {
    var i := ResolveFailure(task.targets, s.resolve);
  }

  lemma RefusedByManifests(task: Task, s: Script, manifests: seq<Target>, resolved: seq<Target>)
    requires ResolveAll(task.targets, s.resolve) == Ok(resolved) && Normalized(resolved, manifests)
    requires PatchAll(manifests, s.patch).Err? && RetryableMark !in PatchAll(manifests, s.patch).error
    ensures ManifestRefused(task, s, Some(PatchAll(manifests, s.patch).error))
  {
    ResolvedExactly(task.targets, s.resolve);
    var i := PatchFailure(manifests, s.patch);
    assert Changes(manifests)[i] in Changes(manifests);
    assert Asked(s.resolve, task.targets, ChangeOf(manifests[i]));
  }

  lemma EndedBeforePush(remote: Remote, task: Task, s: Script, manifests: seq<Target>)
    requires Selected(remote, task, s, manifests)
    requires Prepare(remote, task, s, manifests).Err? && !IsRetryable(Prepare(remote, task, s, manifests).error)
    ensures Settled(remote, task, s, Some(Prepare(remote, task, s, manifests).error))
  {
    LookupOutcome(remote.open, Heads(task), s.lookup, 0);
    if Lookup(remote.open, Heads(task), s.lookup, 0).None? {
      ResolvedExactly(task.targets, s.resolve);
      match ResolveAll(task.targets, s.resolve)
      case Err(e) => RefusedByTargets(task, s);
      case Ok(resolved) =>
        AgreeExactly(task.targets, s.resolve);
        if Consistent(Changes(resolved)) {
          if PatchAll(manifests, s.patch).Err? {
            RefusedByManifests(task, s, manifests, resolved);
          } else {
            PatchedAll(task, s, manifests, resolved);
          }
        }
    }
  }

  lemma PreparedFully(remote: Remote, task: Task, s: Script, manifests: seq<Target>)
    requires Selected(remote, task, s, manifests) && Prepare(remote, task, s, manifests).Ok?
    ensures s.checkout.None? && AllResolve(task, s) && Agree(s.resolve, task.targets) && s.createBranch.None?
    ensures AllPatch(task, s) && SomeDiffers(task, s) && s.commit.None?
  {
    ResolvedExactly(task.targets, s.resolve);
    AgreeExactly(task.targets, s.resolve);
    PatchedAll(task, s, manifests, ResolveAll(task.targets, s.resolve).value);
  }

  lemma EndedAfterPush(remote: Remote, task: Task, s: Script, manifests: seq<Target>)
    requires Selected(remote, task, s, manifests) && Prepare(remote, task, s, manifests).Ok?
    requires Acknowledged(Step(remote, task, s, manifests).1)
    ensures var (after, r) := Step(remote, task, s, manifests);
            FoundOpen(after, task, r) || (s.push.PushAnswered? && Answered(after, task, s, r))
  {
    var commit := CommitOf(remote, s, Prepare(remote, task, s, manifests).value);
    var after := AfterPush(remote, task.branch, commit, s.push);
    LookupOutcome(after.open, Heads(task), s.lookup, |Heads(task)|);
  }

  /** An attempt is left unrepeated only for one of the reasons named: in particular never
      for a failure to look up, clone, create the branch, commit, push or create. */
  lemma AcknowledgedIsSettled(remote: Remote, task: Task, s: Script, manifests: seq<Target>)
    requires Selected(remote, task, s, manifests) && Acknowledged(Step(remote, task, s, manifests).1)
    ensures Settled(Step(remote, task, s, manifests).0, task, s, Step(remote, task, s, manifests).1)
  {
    if Prepare(remote, task, s, manifests).Ok? {
      PreparedFully(remote, task, s, manifests);
      EndedAfterPush(remote, task, s, manifests);
    } else {
      EndedBeforePush(remote, task, s, manifests);
    }
  }

  // ---- Only transient failures are repeated ----

  /** No call fails in a way that another attempt could mend. */
  ghost predicate NothingTransient(task: Task, s: Script) {
    && (forall n :: s.lookup(n).None?) && s.checkout.None? && s.createBranch.None?
    && (s.commit.Some? ==> NoDifference in s.commit.value && RetryableMark !in s.commit.value)
    && (forall i :: 0 <= i < |task.targets| ==>
          var outcome := s.resolve(task.targets[i].location.dir);
          outcome.Err? ==> NamesNoManifest(outcome.error) && RetryableMark !in outcome.error)
    && (forall d, w :: s.patch(d, w).Err? ==>
          NoDifference in s.patch(d, w).error ||
          (NamesNoPatch(s.patch(d, w).error) && RetryableMark !in s.patch(d, w).error))
    && s.push.PushAnswered? && s.create.CreateAnswered?
    && (200 <= s.create.status < 300 || s.create.status in {400, 422})
  }

  lemma PreparationEnds(remote: Remote, task: Task, s: Script, manifests: seq<Target>)
    requires NothingTransient(task, s)
    ensures Prepare(remote, task, s, manifests).Err? ==> !IsRetryable(Prepare(remote, task, s, manifests).error)
  {
    LookupTruthful(remote.open, Heads(task), s.lookup, 0);
    if ResolveAll(task.targets, s.resolve).Err? {
      var i := ResolveFailure(task.targets, s.resolve);
    }
    if PatchAll(manifests, s.patch).Err? {
      var i := PatchFailure(manifests, s.patch);
    }
  }

  /** Without a transient failure an attempt is acknowledged, whatever it ran into. */
  lemma OnlyTransientFailuresRepeat(remote: Remote, task: Task, s: Script, manifests: seq<Target>)
    requires NothingTransient(task, s)
    ensures Acknowledged(Step(remote, task, s, manifests).1)
  {
    PreparationEnds(remote, task, s, manifests);
    if Prepare(remote, task, s, manifests).Ok? {
      var commit := CommitOf(remote, s, Prepare(remote, task, s, manifests).value);
      LookupTruthful(AfterPush(remote, task.branch, commit, s.push).open, Heads(task), s.lookup, |Heads(task)|);
    }
  }
}
