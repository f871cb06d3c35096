/** What holds of a manifest repository over every run of deliveries of one event,
    with calls failing, or taking effect and reporting failure, as the environment likes. */
module Redelivery {
  import opened Text
  import opened Errors
  import opened Planning
  import opened Git
  import opened Delivery
  import Sorting

  // ---- One attempt ----

  /** A push is made with the complete change or not at all: every directory that any of
      the targets resolves to was rewritten into the commit or needed no change, at least
      one was rewritten, and nothing else is in it. */
  lemma PushedCommitIsComplete(remote: Remote, task: Task, s: Script, manifests: seq<Target>)
    requires Selected(remote, task, s, manifests) && Prepare(remote, task, s, manifests).Ok?
    ensures forall i :: 0 <= i < |task.targets| ==> Resolves(s.resolve, task.targets[i])
    ensures var files := Prepare(remote, task, s, manifests).value;
            && files != map[]
            && (forall i, d :: 0 <= i < |task.targets| && ResolvesTo(s.resolve, task.targets[i], d) ==>
                  PatchedInto(s, Change(d, task.targets[i].env, task.targets[i].writesImageManifest), files))
            && forall d :: d in files ==>
                 exists i :: 0 <= i < |task.targets| && ResolvesTo(s.resolve, task.targets[i], d)
  {
    var files := Prepare(remote, task, s, manifests).value;
    ResolvedExactly(task.targets, s.resolve);
    PatchAllCommits(manifests, s);
    forall i, d | 0 <= i < |task.targets| && ResolvesTo(s.resolve, task.targets[i], d)
      ensures PatchedInto(s, Change(d, task.targets[i].env, task.targets[i].writesImageManifest), files)
    {
      var c := Change(d, task.targets[i].env, task.targets[i].writesImageManifest);
      assert Asks(s.resolve, task.targets[i], c);
      assert c in Changes(manifests);
      var k :| 0 <= k < |manifests| && Changes(manifests)[k] == c;
    }
    forall d | d in files ensures exists i :: 0 <= i < |task.targets| && ResolvesTo(s.resolve, task.targets[i], d) {
      var k :| 0 <= k < |manifests| && manifests[k].location.dir == d;
      assert Changes(manifests)[k] in Changes(manifests);
      var i :| 0 <= i < |task.targets| && Asks(s.resolve, task.targets[i], Changes(manifests)[k]);
    }
  }

  ghost predicate PatchedInto(s: Script, c: Change, files: Files) {
    match s.patch(c.dir, c.writesImageManifest)
    case Ok(text) => c.dir in files && files[c.dir] == text
    case Err(e) => NoDifference in e && c.dir !in files
  }

  lemma PatchedIntoStays(s: Script, c: Change, files: Files, d: string, text: string)
    requires PatchedInto(s, c, files) && c.dir != d
    ensures PatchedInto(s, c, files[d := text])
  {
  }

  lemma {:induction false} PatchAllCommits(manifests: seq<Target>, s: Script)
    requires Sorting.Increasing(Dirs(Changes(manifests))) && PatchAll(manifests, s.patch).Ok?
    ensures forall i :: 0 <= i < |manifests| ==> PatchedInto(s, ChangeOf(manifests[i]),
                                                             PatchAll(manifests, s.patch).value)
    ensures forall d :: d in PatchAll(manifests, s.patch).value ==>
              exists i :: 0 <= i < |manifests| && manifests[i].location.dir == d
  {
    if manifests != [] {
      var n := |manifests| - 1;
      var init, m := manifests[..n], manifests[n];
      var ds := Dirs(Changes(manifests));
      assert Dirs(Changes(init)) == ds[..n];
      PatchAllCommits(init, s);
      forall i | 0 <= i < n ensures manifests[i].location.dir != m.location.dir {
        assert Less(ds[i], ds[n]);
        LessAsymmetric(ds[i], ds[n]);
      }
      var before := PatchAll(init, s.patch).value;
      var r := s.patch(m.location.dir, m.writesImageManifest);
      assert PatchAll(manifests, s.patch).value == if r.Ok? then before[m.location.dir := r.value] else before;
      forall i | 0 <= i < |manifests|
        ensures PatchedInto(s, ChangeOf(manifests[i]), PatchAll(manifests, s.patch).value) {
        if i < n {
          assert init[i] == manifests[i] && PatchedInto(s, ChangeOf(init[i]), before);
          if r.Ok? {
            PatchedIntoStays(s, ChangeOf(init[i]), before, m.location.dir, r.value);
          }
        }
      }
      forall d | d in PatchAll(manifests, s.patch).value
        ensures exists i :: 0 <= i < |manifests| && manifests[i].location.dir == d {
        if d in before {
          var i :| 0 <= i < |init| && init[i].location.dir == d;
          assert manifests[i].location.dir == d;
        }
      }
    }
  }

  predicate HasOpen(remote: Remote, task: Task) {
    remote.open[task.branch] > 0 || (task.legacy.Some? && remote.open[task.legacy.value] > 0)
  }

  lemma {:induction false} LookupOutcome(open: multiset<string>, heads: seq<string>, failure: nat -> Option<Error>,
                                         at: nat)
    ensures var r := Lookup(open, heads, failure, at);
            r.Some? && !IsRetryable(r.value) ==>
              r == Some({DuplicatePullRequest}) && exists i :: 0 <= i < |heads| && open[heads[i]] > 0
    ensures Lookup(open, heads, failure, at).None? ==> forall i :: 0 <= i < |heads| ==> open[heads[i]] == 0
  {
    if heads != [] && failure(at).None? && open[heads[0]] == 0 {
      LookupOutcome(open, heads[1..], failure, at + 1);
      if i :| 0 <= i < |heads[1..]| && open[heads[1..][i]] > 0 {
        assert open[heads[i + 1]] > 0;
      }
    }
  }

  /** An attempt that got as far as pushing is acknowledged only when a pull request for
      the update is open, or the host rejected it as invalid. */
  lemma AcknowledgedPushIsOpen(remote: Remote, task: Task, s: Script, manifests: seq<Target>)
    requires Prepare(remote, task, s, manifests).Ok?
    requires Acknowledged(Step(remote, task, s, manifests).1)
    ensures HasOpen(Step(remote, task, s, manifests).0, task) ||
            (s.create.CreateAnswered? && IsInvalid(s.create.status) &&
             Step(remote, task, s, manifests).1 == Some({InvalidPullRequest}))
  {
    var after := AfterPush(remote, task.branch, CommitOf(remote, s, Prepare(remote, task, s, manifests).value), s.push);
    LookupOutcome(after.open, Heads(task), s.lookup, |Heads(task)|);
  }

  /** What an attempt does to the remote, and how it ends. */
  datatype Outcome = Outcome(pushed: Option<Commit>, created: bool, result: Option<Error>)

  function PushOutcome(remote: Remote, task: Task, s: Script, commit: Commit): Outcome {
    var pushed := if Arrives(remote, task.branch, commit, s.push) then Some(commit) else None;
    var (_, reported) := CreateStep(remote, task, s);
    match PushError(remote, task.branch, commit, s.push)
    case None => Outcome(pushed, Creates(s.create), reported)
    case Some(e) =>
      if DuplicatePullRequest !in e then Outcome(pushed, false, Some(Retryable(e)))
      else
        var again := Lookup(remote.open, Heads(task), s.lookup, |Heads(task)|);
        if again.Some? then Outcome(pushed, false, again) else Outcome(pushed, Creates(s.create), reported)
  }

  function OutcomeOf(remote: Remote, task: Task, s: Script, manifests: seq<Target>): Outcome {
    match Prepare(remote, task, s, manifests)
    case Err(e) => Outcome(None, false, Some(e))
    case Ok(files) => PushOutcome(remote, task, s, CommitOf(remote, s, files))
  }

  function BranchesAfter(branches: map<string, Commit>, branch: string, o: Outcome): map<string, Commit> {
    if o.pushed.Some? then branches[branch := o.pushed.value] else branches
  }

  function OpenAfter(open: multiset<string>, branch: string, o: Outcome): multiset<string> {
    if o.created then open + multiset{branch} else open
  }

  /** after is the remote as the outcome leaves it. */
  predicate LeavesBehind(remote: Remote, branch: string, o: Outcome, after: Remote) {
    && after.base == remote.base
    && after.branches == BranchesAfter(remote.branches, branch, o)
    && after.open == OpenAfter(remote.open, branch, o)
  }

  lemma CreateByOutcome(remote: Remote, after: Remote, task: Task, s: Script)
    ensures CreateStep(after, task, s).1 == CreateStep(remote, task, s).1
    ensures var end := CreateStep(after, task, s).0;
            && end.base == after.base && end.branches == after.branches
            && end.open == if Creates(s.create) then after.open + multiset{task.branch} else after.open
  {
  }

  lemma PushByOutcome(remote: Remote, task: Task, s: Script, commit: Commit)
    ensures var (after, r) := PushStep(remote, task, s, commit);
            var o := PushOutcome(remote, task, s, commit);
            r == o.result && LeavesBehind(remote, task.branch, o, after)
  {
    CreateByOutcome(remote, AfterPush(remote, task.branch, commit, s.push), task, s);
  }

  lemma StepByOutcome(remote: Remote, task: Task, s: Script, manifests: seq<Target>)
    ensures var (after, r) := Step(remote, task, s, manifests);
            var o := OutcomeOf(remote, task, s, manifests);
            r == o.result && LeavesBehind(remote, task.branch, o, after)
  {
    if Prepare(remote, task, s, manifests).Ok? {
      PushByOutcome(remote, task, s, CommitOf(remote, s, Prepare(remote, task, s, manifests).value));
    }
  }

  lemma NoneIsOpen(remote: Remote, task: Task, failure: nat -> Option<Error>)
    requires Lookup(remote.open, Heads(task), failure, 0).None?
    ensures !HasOpen(remote, task)
  {
    LookupOutcome(remote.open, Heads(task), failure, 0);
    assert Heads(task)[0] == task.branch;
    assert task.legacy.Some? && task.legacy.value != task.branch ==> Heads(task)[1] == task.legacy.value;
  }

  /** A pull request is opened only where none is open, for a branch that was there or
      was just pushed, and only the prepared commit is pushed. */
  lemma OpensOnce(remote: Remote, task: Task, s: Script, manifests: seq<Target>)
    ensures var o := OutcomeOf(remote, task, s, manifests);
            && (o.created ==> !HasOpen(remote, task) && (o.pushed.Some? || task.branch in remote.branches))
            && (o.pushed.Some? ==> Prepare(remote, task, s, manifests).Ok? &&
                                   o.pushed.value == CommitOf(remote, s, Prepare(remote, task, s, manifests).value))
  {
    if Prepare(remote, task, s, manifests).Ok? {
      NoneIsOpen(remote, task, s.lookup);
    }
  }

  /** Only this update's branch and its pull requests are ever touched, and a pull request
      is opened only where none is open and only for a branch that is on the remote. */
  lemma AttemptIsSafe(remote: Remote, task: Task, s: Script, manifests: seq<Target>)
    ensures var after := Step(remote, task, s, manifests).0;
            && after.base == remote.base
            && (forall b :: b in remote.branches ==> b in after.branches)
            && (forall b :: b in after.branches && b != task.branch ==>
                b in remote.branches && after.branches[b] == remote.branches[b])
            && (forall b :: b != task.branch ==> after.open[b] == remote.open[b])
            && (after.open[task.branch] == remote.open[task.branch] ||
                (after.open[task.branch] == remote.open[task.branch] + 1 && !HasOpen(remote, task)
                 && task.branch in after.branches))
  {
    StepByOutcome(remote, task, s, manifests);
    OpensOnce(remote, task, s, manifests);
  }

  // ---- What becomes of a branch that is there ----

  /** How far back whoever decides on the push sees the base contain h. */
  predicate SeenInBase(remote: Remote, h: Commit, reply: PushReply) {
    if reply.PushAnswered? && reply.shallow then h == remote.base else IsAncestor(h, remote.base)
  }

  /** The exact condition under which a later attempt replaces a branch: it gets as far as
      pushing, its push arrives, and the base it cloned contains what the branch points at.
      Then the branch points at the new commit, which descends from the old one. */
  lemma BranchReplacedExactly(remote: Remote, task: Task, s: Script, manifests: seq<Target>)
    requires task.branch in remote.branches
    ensures var after, h := Step(remote, task, s, manifests).0, remote.branches[task.branch];
            var pushes := Prepare(remote, task, s, manifests).Ok? && (s.push.PushAnswered? || s.push.arrives);
            && task.branch in after.branches
            && (after.branches[task.branch] != h <==> pushes && SeenInBase(remote, h, s.push))
            && IsAncestor(h, after.branches[task.branch])
  {
    var h := remote.branches[task.branch];
    if Prepare(remote, task, s, manifests).Ok? {
      var files := Prepare(remote, task, s, manifests).value;
      var shallow := s.push.PushAnswered? && s.push.shallow;
      MovedExactly(h, remote.base, files, s.stamp, shallow);
      MadeOnBase(h, remote.base, files, s.stamp);
      MadeOnBase(remote.base, remote.base, files, s.stamp);
    }
  }

  // ---- Runs ----

  /** Deliveries that do not overlap; in between, pull requests are closed or merged, and
      the base branch moves to any commit, whether or not it contains what was merged. */
  datatype Happening = Attempt(script: Script, manifests: seq<Target>) | Close(head: string) | BaseMoves(to: Commit)

  function After(remote: Remote, task: Task, h: Happening): Remote {
    match h
    case Attempt(s, manifests) => Step(remote, task, s, manifests).0
    case Close(b) =>
      if remote.open[b] > 0 then remote.(open := remote.open - multiset{b}, log := remote.log + [Closed(b)]) else remote
    case BaseMoves(to) => remote.(base := to)
  }

  /** What ApplyRepository guarantees of an attempt; nothing is asked of the host. */
  ghost predicate Allowed(remote: Remote, task: Task, h: Happening) {
    h.Attempt? ==> Selected(remote, task, h.script, h.manifests)
  }

  function Run(remote: Remote, task: Task, hs: seq<Happening>): Remote {
    if hs == [] then remote else After(Run(remote, task, hs[..|hs| - 1]), task, hs[|hs| - 1])
  }

  ghost predicate AllowedRun(remote: Remote, task: Task, hs: seq<Happening>) {
    forall i :: 0 <= i < |hs| ==> Allowed(Run(remote, task, hs[..i]), task, hs[i])
  }

  lemma AllowedPrefix(remote: Remote, task: Task, hs: seq<Happening>)
    requires hs != [] && AllowedRun(remote, task, hs)
    ensures AllowedRun(remote, task, hs[..|hs| - 1])
    ensures Allowed(Run(remote, task, hs[..|hs| - 1]), task, hs[|hs| - 1])
  {
    var init := hs[..|hs| - 1];
    forall i | 0 <= i < |init| ensures Allowed(Run(remote, task, init[..i]), task, init[i]) {
      assert init[..i] == hs[..i] && init[i] == hs[i];
    }
  }

  function Count(log: seq<Effect>, e: Effect): nat {
    if log == [] then 0 else Count(log[..|log| - 1], e) + if log[|log| - 1] == e then 1 else 0
  }

  lemma CountSnoc(log: seq<Effect>, x: Effect, e: Effect)
    ensures Count(log + [x], e) == Count(log, e) + if x == e then 1 else 0
  {
    assert (log + [x])[..|log|] == log;
  }

  /** The open pull requests of a head are those opened less those closed. */
  ghost predicate Balanced(remote: Remote, b: string, base: int) {
    remote.open[b] == base + Count(remote.log, Opened(b)) - Count(remote.log, Closed(b))
  }

  lemma PushBalances(remote: Remote, branch: string, commit: Commit, reply: PushReply, b: string, base: int)
    ensures Balanced(AfterPush(remote, branch, commit, reply), b, base) <==> Balanced(remote, b, base)
  {
    CountSnoc(remote.log, Pushed(branch, commit), Opened(b));
    CountSnoc(remote.log, Pushed(branch, commit), Closed(b));
  }

  lemma CreateBalances(remote: Remote, branch: string, reply: CreateReply, b: string, base: int)
    ensures Balanced(AfterCreate(remote, branch, reply), b, base) <==> Balanced(remote, b, base)
  {
    CountSnoc(remote.log, Opened(branch), Opened(b));
    CountSnoc(remote.log, Opened(branch), Closed(b));
  }

  lemma AttemptBalances(remote: Remote, task: Task, s: Script, manifests: seq<Target>, b: string, base: int)
    ensures Balanced(Step(remote, task, s, manifests).0, b, base) <==> Balanced(remote, b, base)
  {
    if Prepare(remote, task, s, manifests).Ok? {
      var commit := CommitOf(remote, s, Prepare(remote, task, s, manifests).value);
      PushBalances(remote, task.branch, commit, s.push, b, base);
      CreateBalances(AfterPush(remote, task.branch, commit, s.push), task.branch, s.create, b, base);
    }
  }

  lemma {:induction false} RunBalances(remote: Remote, task: Task, hs: seq<Happening>, b: string, base: int)
    requires Balanced(remote, b, base)
    ensures Balanced(Run(remote, task, hs), b, base)
  {
    if hs != [] {
      var before, h := Run(remote, task, hs[..|hs| - 1]), hs[|hs| - 1];
      RunBalances(remote, task, hs[..|hs| - 1], b, base);
      match h
      case Attempt(s, manifests) => AttemptBalances(before, task, s, manifests, b, base);
      case Close(c) =>
        CountSnoc(before.log, Closed(c), Opened(b));
        CountSnoc(before.log, Closed(c), Closed(b));
      case BaseMoves(_) =>
    }
  }

  lemma {:induction false} OneOpenAtMost(remote: Remote, task: Task, hs: seq<Happening>)
    requires remote.open[task.branch] <= 1
    ensures Run(remote, task, hs).open[task.branch] <= 1
  {
    if hs != [] {
      var before, h := Run(remote, task, hs[..|hs| - 1]), hs[|hs| - 1];
      OneOpenAtMost(remote, task, hs[..|hs| - 1]);
      if h.Attempt? {
        AttemptIsSafe(before, task, h.script, h.manifests);
      }
    }
  }

  /** From a repository that never saw the branch, every run opens at most one pull
      request more than were closed, so at most one while none is. */
  lemma OpenedAtMostOnce(remote: Remote, task: Task, hs: seq<Happening>)
    requires remote.log == [] && remote.open[task.branch] == 0
    ensures var log := Run(remote, task, hs).log;
            Count(log, Opened(task.branch)) <= 1 + Count(log, Closed(task.branch))
  {
    RunBalances(remote, task, hs, task.branch, 0);
    OneOpenAtMost(remote, task, hs);
  }

  // ---- One effective write per branch ----

  function Writes(log: seq<Effect>, b: string): nat {
    if log == [] then 0
    else Writes(log[..|log| - 1], b) + if log[|log| - 1].Pushed? && log[|log| - 1].branch == b then 1 else 0
  }

  /** The base never contains what the branch points at, when the branch is there. */
  ghost predicate BaseStaysBehind(remote: Remote, task: Task, hs: seq<Happening>) {
    forall i :: 0 <= i <= |hs| ==> Behind(Run(remote, task, hs[..i]), task)
  }

  predicate Behind(remote: Remote, task: Task) {
    task.branch in remote.branches ==> !IsAncestor(remote.branches[task.branch], remote.base)
  }

  lemma BehindPrefix(remote: Remote, task: Task, hs: seq<Happening>)
    requires hs != [] && BaseStaysBehind(remote, task, hs)
    ensures BaseStaysBehind(remote, task, hs[..|hs| - 1])
    ensures Behind(Run(remote, task, hs[..|hs| - 1]), task)
  {
    var init := hs[..|hs| - 1];
    forall i | 0 <= i <= |init| ensures Behind(Run(remote, task, init[..i]), task) {
      assert init[..i] == hs[..i];
    }
    assert init[..|init|] == init;
  }

  lemma WritesSnoc(log: seq<Effect>, x: Effect, b: string)
    ensures Writes(log + [x], b) == Writes(log, b) + if x.Pushed? && x.branch == b then 1 else 0
  {
    assert (log + [x])[..|log|] == log;
  }

  lemma CreateWritesNothing(remote: Remote, branch: string, reply: CreateReply, b: string)
    ensures Writes(AfterCreate(remote, branch, reply).log, b) == Writes(remote.log, b)
  {
    WritesSnoc(remote.log, Opened(branch), b);
  }

  lemma MoveWrites(remote: Remote, branch: string, commit: Commit, reply: PushReply)
    ensures var pushed, arrives := AfterPush(remote, branch, commit, reply), Arrives(remote, branch, commit, reply);
            && Writes(pushed.log, branch) == Writes(remote.log, branch) + (if arrives then 1 else 0)
            && HeadOf(pushed, branch) == if arrives then Some(commit) else HeadOf(remote, branch)
  {
    WritesSnoc(remote.log, Pushed(branch, commit), branch);
  }

  /** After the push at most a pull request is opened. */
  lemma PushThenCreate(remote: Remote, task: Task, s: Script, commit: Commit)
    ensures var after, pushed := PushStep(remote, task, s, commit).0, AfterPush(remote, task.branch, commit, s.push);
            after == pushed || after == AfterCreate(pushed, task.branch, s.create)
  {
  }

  lemma PushWrites(remote: Remote, task: Task, s: Script, commit: Commit)
    ensures var after := PushStep(remote, task, s, commit).0;
            && Writes(after.log, task.branch) ==
               Writes(remote.log, task.branch) + (if Arrives(remote, task.branch, commit, s.push) then 1 else 0)
            && HeadOf(after, task.branch) ==
               if Arrives(remote, task.branch, commit, s.push) then Some(commit) else HeadOf(remote, task.branch)
  {
    var pushed := AfterPush(remote, task.branch, commit, s.push);
    PushThenCreate(remote, task, s, commit);
    MoveWrites(remote, task.branch, commit, s.push);
    CreateWritesNothing(pushed, task.branch, s.create, task.branch);
  }

  /** While the base does not contain the branch, an attempt writes it only when it is
      absent, and then once. */
  lemma AttemptWritesOnce(remote: Remote, task: Task, s: Script, manifests: seq<Target>)
    requires Behind(remote, task)
    ensures var after := Step(remote, task, s, manifests).0;
            && (task.branch in remote.branches ==> HeadOf(after, task.branch) == HeadOf(remote, task.branch))
            && Writes(after.log, task.branch) - Writes(remote.log, task.branch) ==
               if task.branch in after.branches && task.branch !in remote.branches then 1 else 0
  {
    if Prepare(remote, task, s, manifests).Ok? {
      var files := Prepare(remote, task, s, manifests).value;
      PushWrites(remote, task, s, CommitOf(remote, s, files));
      if task.branch in remote.branches {
        AttemptStaysBehind(remote, task, s, files);
      }
    }
  }

  lemma AttemptStaysBehind(remote: Remote, task: Task, s: Script, files: Files)
    requires Behind(remote, task) && task.branch in remote.branches
    ensures !Arrives(remote, task.branch, CommitOf(remote, s, files), s.push)
  {
    var h := remote.branches[task.branch];
    MovedExactly(h, remote.base, files, s.stamp, true);
    MovedExactly(h, remote.base, files, s.stamp, false);
    assert IsAncestor(remote.base, remote.base);
  }

  /** From a repository without the branch, every run in which the base never contains it
      writes it once if it ends up there, and not at all otherwise; and what the first
      write put there stays. */
  lemma {:induction false} OneWritePerBranch(remote: Remote, task: Task, hs: seq<Happening>)
    requires BaseStaysBehind(remote, task, hs)
    ensures var end := Run(remote, task, hs);
            && Writes(end.log, task.branch) ==
               Writes(remote.log, task.branch) + (if task.branch in end.branches && task.branch !in remote.branches
                                                  then 1 else 0)
            && (task.branch in remote.branches ==> HeadOf(end, task.branch) == HeadOf(remote, task.branch))
  {
    if hs != [] {
      var before, h := Run(remote, task, hs[..|hs| - 1]), hs[|hs| - 1];
      BehindPrefix(remote, task, hs);
      OneWritePerBranch(remote, task, hs[..|hs| - 1]);
      match h
      case Attempt(s, manifests) =>
        AttemptWritesOnce(before, task, s, manifests);
        AttemptIsSafe(before, task, s, manifests);
      case Close(b) => WritesSnoc(before.log, Closed(b), task.branch);
      case BaseMoves(_) =>
    }
  }

  /** Branches of other updates are never written at all. */
  lemma {:induction false} OtherBranchesUntouched(remote: Remote, task: Task, hs: seq<Happening>, b: string)
    requires b != task.branch
    ensures HeadOf(Run(remote, task, hs), b) == HeadOf(remote, b)
  {
    if hs != [] {
      OtherBranchesUntouched(remote, task, hs[..|hs| - 1], b);
      var h := hs[|hs| - 1];
      if h.Attempt? {
        AttemptIsSafe(Run(remote, task, hs[..|hs| - 1]), task, h.script, h.manifests);
      }
    }
  }

  // ---- No update is lost ----

  /** The base branch as the event finds it: what the targets resolve to, which rewritten
      files are right, and which directories are right already. */
  datatype Base = Base(
    resolve: string -> Result<seq<string>, Error>,
    accepts: (string, bool, string) -> bool,
    current: (string, bool) -> bool)

  /** With an unchanged base, calls that succeed answer as the base has it. */
  ghost predicate Faithful(base: Base, s: Script) {
    && (forall p :: s.resolve(p).Ok? ==> s.resolve(p) == base.resolve(p))
    && (forall d, w :: s.patch(d, w).Ok? ==> base.accepts(d, w, s.patch(d, w).value))
    && (forall d, w :: s.patch(d, w).Err? && NoDifference in s.patch(d, w).error ==> base.current(d, w))
  }

  /** Every directory that any of the targets resolves to on the base has its right file
      among these, or is right already. */
  ghost predicate CompleteUpdate(base: Base, targets: seq<Target>, files: Files) {
    forall i :: 0 <= i < |targets| ==>
      && Resolves(base.resolve, targets[i])
      && forall d :: ResolvesTo(base.resolve, targets[i], d) ==>
           UpToDate(base, d, targets[i].writesImageManifest, files)
  }

  ghost predicate UpToDate(base: Base, d: string, writes: bool, files: Files) {
    if d in files then base.accepts(d, writes, files[d]) else base.current(d, writes)
  }

  lemma PushedCommitIsRight(base: Base, remote: Remote, task: Task, s: Script, manifests: seq<Target>)
    requires Faithful(base, s) && Selected(remote, task, s, manifests) && Prepare(remote, task, s, manifests).Ok?
    ensures CompleteUpdate(base, task.targets, Prepare(remote, task, s, manifests).value)
  {
    PushedCommitIsComplete(remote, task, s, manifests);
    var files := Prepare(remote, task, s, manifests).value;
    forall i, d | 0 <= i < |task.targets| && ResolvesTo(base.resolve, task.targets[i], d)
      ensures UpToDate(base, d, task.targets[i].writesImageManifest, files)
    {
      assert ResolvesTo(s.resolve, task.targets[i], d);
      assert PatchedInto(s, Change(d, task.targets[i].env, task.targets[i].writesImageManifest), files);
    }
  }

  /** The branch, if it is there, holds the complete update; a pull request for it is open only if it is there. */
  ghost predicate Sane(base: Base, branch: string, targets: seq<Target>, remote: Remote) {
    && (branch in remote.branches ==> CompleteUpdate(base, targets, remote.branches[branch].files))
    && (remote.open[branch] > 0 ==> branch in remote.branches)
  }

  ghost predicate FaithfulRun(base: Base, hs: seq<Happening>) {
    forall i :: 0 <= i < |hs| && hs[i].Attempt? ==> Faithful(base, hs[i].script)
  }

  lemma AttemptStaysSane(base: Base, remote: Remote, task: Task, s: Script, manifests: seq<Target>)
    requires Sane(base, task.branch, task.targets, remote) && Faithful(base, s) && Selected(remote, task, s, manifests)
    ensures Sane(base, task.branch, task.targets, Step(remote, task, s, manifests).0)
  {
    StepByOutcome(remote, task, s, manifests);
    OpensOnce(remote, task, s, manifests);
    if Prepare(remote, task, s, manifests).Ok? {
      PushedCommitIsRight(base, remote, task, s, manifests);
    }
  }

  lemma {:induction false} RunStaysSane(base: Base, remote: Remote, task: Task, hs: seq<Happening>)
    requires Sane(base, task.branch, task.targets, remote) && AllowedRun(remote, task, hs) && FaithfulRun(base, hs)
    ensures Sane(base, task.branch, task.targets, Run(remote, task, hs))
  {
    if hs != [] {
      AllowedPrefix(remote, task, hs);
      RunStaysSane(base, remote, task, hs[..|hs| - 1]);
      var h := hs[|hs| - 1];
      if h.Attempt? {
        AttemptStaysSane(base, Run(remote, task, hs[..|hs| - 1]), task, h.script, h.manifests);
      }
    }
  }

  /** No call fails, the targets do not contradict each other, and something differs from
      the base. */
  ghost predicate FailureFree(task: Task, s: Script) {
    && (forall n :: s.lookup(n).None?) && s.checkout.None? && s.createBranch.None? && s.commit.None?
    && s.push.PushAnswered? && s.create.CreateAnswered? && IsSuccess(s.create.status)
    && (forall i :: 0 <= i < |task.targets| ==> Resolves(s.resolve, task.targets[i]))
    && Agree(s.resolve, task.targets)
    && (forall c :: Asked(s.resolve, task.targets, c) ==> Patchable(s, c))
    && exists c :: Asked(s.resolve, task.targets, c) && s.patch(c.dir, c.writesImageManifest).Ok?
  }

  /** Targets that resolve to the same directory ask for the same change. */
  ghost predicate Agree(resolve: string -> Result<seq<string>, Error>, targets: seq<Target>) {
    forall c, e :: Asked(resolve, targets, c) && Asked(resolve, targets, e) && c.dir == e.dir ==> c == e
  }

  lemma AgreeExactly(targets: seq<Target>, resolve: string -> Result<seq<string>, Error>)
    requires ResolveAll(targets, resolve).Ok?
    ensures Agree(resolve, targets) <==> Consistent(Changes(ResolveAll(targets, resolve).value))
  {
    var cs := Changes(ResolveAll(targets, resolve).value);
    ResolvedExactly(targets, resolve);
    forall i | 0 <= i < |cs| ensures Asked(resolve, targets, cs[i]) {
      assert cs[i] in cs;
    }
    forall c | Asked(resolve, targets, c) ensures c in cs {
    }
  }

  ghost predicate Patchable(s: Script, c: Change) {
    var r := s.patch(c.dir, c.writesImageManifest);
    r.Ok? || NoDifference in r.error
  }

  lemma {:induction false} PatchAllSucceeds(manifests: seq<Target>, s: Script)
    requires forall i :: 0 <= i < |manifests| ==> Patchable(s, ChangeOf(manifests[i]))
    ensures PatchAll(manifests, s.patch).Ok?
    ensures forall i :: 0 <= i < |manifests| && s.patch(manifests[i].location.dir,
                                                        manifests[i].writesImageManifest).Ok? ==>
              manifests[i].location.dir in PatchAll(manifests, s.patch).value
  {
    if manifests != [] {
      var n := |manifests| - 1;
      forall i | 0 <= i < n ensures Patchable(s, ChangeOf(manifests[..n][i])) {
        assert manifests[..n][i] == manifests[i];
      }
      PatchAllSucceeds(manifests[..n], s);
      assert forall i :: 0 <= i < n ==> manifests[..n][i] == manifests[i];
      assert Patchable(s, ChangeOf(manifests[n]));
    }
  }

  lemma FailureFreePrepares(remote: Remote, task: Task, s: Script, manifests: seq<Target>)
    requires FailureFree(task, s) && Selected(remote, task, s, manifests)
    requires Lookup(remote.open, Heads(task), s.lookup, 0).None?
    ensures Prepare(remote, task, s, manifests).Ok?
  {
    ResolvedExactly(task.targets, s.resolve);
    AgreeExactly(task.targets, s.resolve);
    forall i | 0 <= i < |manifests| ensures Patchable(s, ChangeOf(manifests[i])) {
      assert Changes(manifests)[i] in Changes(manifests);
      assert Asked(s.resolve, task.targets, ChangeOf(manifests[i]));
    }
    PatchAllSucceeds(manifests, s);
    var c :| Asked(s.resolve, task.targets, c) && s.patch(c.dir, c.writesImageManifest).Ok?;
    assert c in Changes(manifests);
    var i :| 0 <= i < |manifests| && Changes(manifests)[i] == c;
  }

  lemma {:induction false} LookupTruthful(open: multiset<string>, heads: seq<string>, failure: nat -> Option<Error>,
                                          at: nat)
    requires forall n :: failure(n).None?
    ensures Lookup(open, heads, failure, at) == None || Lookup(open, heads, failure, at) == Some({DuplicatePullRequest})
    ensures (forall i :: 0 <= i < |heads| ==> open[heads[i]] == 0) ==> Lookup(open, heads, failure, at).None?
  {
    if heads != [] && open[heads[0]] == 0 {
      LookupTruthful(open, heads[1..], failure, at + 1);
      assert forall i :: 0 <= i < |heads[1..]| ==> heads[1..][i] == heads[i + 1];
    }
  }

  /** Whatever state the remote was left in, an attempt without failures is acknowledged
      with a pull request open. */
  lemma FailureFreeAttemptOpens(remote: Remote, task: Task, s: Script, manifests: seq<Target>)
    requires FailureFree(task, s) && Selected(remote, task, s, manifests)
    ensures Acknowledged(Step(remote, task, s, manifests).1) && HasOpen(Step(remote, task, s, manifests).0, task)
  {
    LookupTruthful(remote.open, Heads(task), s.lookup, 0);
    LookupOutcome(remote.open, Heads(task), s.lookup, 0);
    if Lookup(remote.open, Heads(task), s.lookup, 0).None? {
      FailureFreePrepares(remote, task, s, manifests);
      LookupTruthful(remote.open, Heads(task), s.lookup, |Heads(task)|);
    }
  }

  /** No update is lost: after any run of attempts, however they failed, one attempt
      without failures ends acknowledged with a pull request open, and if that is for
      this release's branch, the branch holds the complete update. */
  lemma NoUpdateIsLost(base: Base, remote: Remote, task: Task, hs: seq<Happening>, s: Script, manifests: seq<Target>)
    requires task.branch !in remote.branches && remote.open[task.branch] == 0
    requires AllowedRun(remote, task, hs) && FaithfulRun(base, hs)
    requires Faithful(base, s) && FailureFree(task, s)
             && Selected(Run(remote, task, hs), task, s, manifests)
    ensures var (end, r) := Step(Run(remote, task, hs), task, s, manifests);
            && Acknowledged(r) && HasOpen(end, task)
            && (end.open[task.branch] > 0 ==>
                  task.branch in end.branches && CompleteUpdate(base, task.targets, end.branches[task.branch].files))
  {
    RunStaysSane(base, remote, task, hs);
    FailureFreeAttemptOpens(Run(remote, task, hs), task, s, manifests);
    AttemptStaysSane(base, Run(remote, task, hs), task, s, manifests);
  }

  // ---- Other updates of the same repository ----

  lemma {:induction false} LookupIsLocal(open: multiset<string>, other: multiset<string>, heads: seq<string>,
                                         failure: nat -> Option<Error>, at: nat)
    requires forall h :: h in heads ==> open[h] == other[h]
    ensures Lookup(open, heads, failure, at) == Lookup(other, heads, failure, at)
  {
    if heads != [] {
      LookupIsLocal(open, other, heads[1..], failure, at + 1);
    }
  }

  lemma OutcomeIsLocal(a: Remote, b: Remote, task: Task, s: Script, manifests: seq<Target>)
    requires a.base == b.base && HeadOf(a, task.branch) == HeadOf(b, task.branch)
    requires forall h :: h in Heads(task) ==> a.open[h] == b.open[h]
    ensures OutcomeOf(a, task, s, manifests) == OutcomeOf(b, task, s, manifests)
  {
    LookupIsLocal(a.open, b.open, Heads(task), s.lookup, 0);
    LookupIsLocal(a.open, b.open, Heads(task), s.lookup, |Heads(task)|);
  }

  /** Updates on different branches do not disturb each other: in either order both end
      the same way and leave the same branches and pull requests. */
  lemma AttemptsOnDifferentBranchesCommute(remote: Remote, t: Task, s: Script, m: seq<Target>, u: Task, z: Script,
                                           n: seq<Target>)
    requires t.branch !in Heads(u) && u.branch !in Heads(t)
    ensures var (t1, tFirst) := Step(remote, t, s, m);
            var (u2, uSecond) := Step(t1, u, z, n);
            var (u1, uFirst) := Step(remote, u, z, n);
            var (t2, tSecond) := Step(u1, t, s, m);
            tFirst == tSecond && uFirst == uSecond && u2.branches == t2.branches && u2.open == t2.open
  {
    var t1, u1 := Step(remote, t, s, m).0, Step(remote, u, z, n).0;
    StepByOutcome(remote, t, s, m);
    StepByOutcome(remote, u, z, n);
    StepByOutcome(t1, u, z, n);
    StepByOutcome(u1, t, s, m);
    assert Heads(t)[0] == t.branch;
    assert t.branch != u.branch;
    OtherHeadsStay(remote, t, OutcomeOf(remote, t, s, m), t1, u);
    OtherHeadsStay(remote, u, OutcomeOf(remote, u, z, n), u1, t);
    OutcomeIsLocal(remote, t1, u, z, n);
    OutcomeIsLocal(remote, u1, t, s, m);
    BranchesCommute(remote, t.branch, OutcomeOf(remote, t, s, m), u.branch, OutcomeOf(remote, u, z, n));
  }

  lemma OtherHeadsStay(remote: Remote, task: Task, o: Outcome, after: Remote, other: Task)
    requires task.branch !in Heads(other)
    requires after.branches == BranchesAfter(remote.branches, task.branch, o)
             && after.open == OpenAfter(remote.open, task.branch, o)
    ensures HeadOf(after, other.branch) == HeadOf(remote, other.branch)
    ensures forall h :: h in Heads(other) ==> after.open[h] == remote.open[h]
  {
    assert Heads(other)[0] == other.branch;
  }

  lemma BranchesCommute(remote: Remote, b: string, o: Outcome, c: string, p: Outcome)
    requires b != c
    ensures BranchesAfter(BranchesAfter(remote.branches, b, o), c, p) ==
              BranchesAfter(BranchesAfter(remote.branches, c, p), b, o)
    ensures OpenAfter(OpenAfter(remote.open, b, o), c, p) == OpenAfter(OpenAfter(remote.open, c, p), b, o)
  {
  }

  // ---- A whole delivery ----

  /** A delivery in which no call fails is acknowledged with a pull request open in every planned repository. */
  lemma FailureFreeDeliveryOpensAll(before: map<string, Remote>, jobs: seq<Job>, manifests: seq<seq<Target>>,
                                    results: seq<Option<Error>>, after: map<string, Remote>)
    requires Delivered(before, jobs, manifests, results, after)
    requires forall i :: 0 <= i < |jobs| ==>
               jobs[i].key in before && FailureFree(jobs[i].task, jobs[i].script)
    ensures Acknowledged(JoinErrors(Failures(results)))
    ensures forall i :: 0 <= i < |jobs| ==> jobs[i].key in after && HasOpen(after[jobs[i].key], jobs[i].task)
  {
    forall i | 0 <= i < |jobs|
      ensures Acknowledged(results[i]) && jobs[i].key in after && HasOpen(after[jobs[i].key], jobs[i].task) {
      assert Attempted(before, jobs[i], manifests[i], after, results[i]);
      FailureFreeAttemptOpens(before[jobs[i].key], jobs[i].task, jobs[i].script, manifests[i]);
    }
    AcknowledgedExactly(results);
  }

  /** An acknowledged delivery leaves no repository behind whose attempt reached the
      push: its pull request is open or was rejected as invalid. */
  lemma AcknowledgedDeliveryIsOpen(before: map<string, Remote>, jobs: seq<Job>, manifests: seq<seq<Target>>,
                                   results: seq<Option<Error>>, after: map<string, Remote>, i: nat)
    requires Delivered(before, jobs, manifests, results, after) && i < |jobs|
    requires Acknowledged(JoinErrors(Failures(results)))
    requires jobs[i].key in before
    requires Prepare(before[jobs[i].key], jobs[i].task, jobs[i].script, manifests[i]).Ok?
    ensures jobs[i].key in after
    ensures HasOpen(after[jobs[i].key], jobs[i].task) ||
            (results[i] == Some({InvalidPullRequest}) && jobs[i].script.create.CreateAnswered?
             && IsInvalid(jobs[i].script.create.status))
  {
    AcknowledgedExactly(results);
    assert Attempted(before, jobs[i], manifests[i], after, results[i]);
    AcknowledgedPushIsOpen(before[jobs[i].key], jobs[i].task, jobs[i].script, manifests[i]);
  }
}
