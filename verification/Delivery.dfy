/** One delivery of an event: apply, applyRepository, resolveManifestTargets and
    ensureNoOpenPullRequest of internal/application/updater/service.go, with the
    outcomes of a push from internal/infrastructure/githost/github/checkout.go. */
module Delivery {
  import opened Text
  import opened Errors
  import opened Planning
  import opened Git
  import Sorting

  datatype Effect = Pushed(branch: string, commit: Commit) | Opened(branch: string) | Closed(branch: string)

  /** A manifest repository at the git host: the head of the base branch, the other
      branches, the heads of the open pull requests, and everything that ever happened to them. */
  datatype Remote = Remote(base: Commit, branches: map<string, Commit>, open: multiset<string>, log: seq<Effect>)

  /** What one repository plan asks for. legacy is the branch name of earlier releases,
      where it differs. */
  datatype Task = Task(branch: string, legacy: Option<string>, targets: seq<Target>)

  /** How a push ends: with an answer, decided on one commit of history or on all of it,
      or without one, whether or not the push had arrived. */
  datatype PushReply = PushAnswered(shallow: bool) | PushBroken(arrives: bool)

  /** How the creation of a pull request ends: with an HTTP status, or without one. */
  datatype CreateReply = CreateAnswered(status: nat) | CreateBroken(arrives: bool)

  /** The environment's choices for one attempt at one repository: the n-th lookup answers
      truthfully unless lookup(n) is a failure, and stamp is the time of the commit. */
  datatype Script = Script(
    lookup: nat -> Option<Error>,
    checkout: Option<Error>,
    resolve: string -> Result<seq<string>, Error>,
    createBranch: Option<Error>,
    patch: (string, bool) -> Result<string, Error>,
    commit: Option<Error>,
    stamp: nat,
    push: PushReply,
    create: CreateReply)

  function Heads(task: Task): seq<string> {
    [task.branch] + match task.legacy case Some(b) => (if b == task.branch then [] else [b]) case None => []
  }

  /** ensureNoOpenPullRequest on heads, the first being lookup number at. */
  function Lookup(open: multiset<string>, heads: seq<string>, failure: nat -> Option<Error>, at: nat): Option<Error> {
    if heads == [] then None
    else if failure(at).Some? then Some(Retryable(failure(at).value))
    else if open[heads[0]] > 0 then Some({DuplicatePullRequest})
    else Lookup(open, heads[1..], failure, at + 1)
  }

  function Redirected(t: Target, dirs: seq<string>): seq<Target> {
    seq(|dirs|, i requires 0 <= i < |dirs| => t.(location := t.location.(dir := dirs[i])))
  }

  predicate Unresolvable(e: Error) { ManifestNotFound in e || InvalidManifest in e || IncompleteRule in e }

  /** Every directory the targets select, target by target. */
  function ResolveAll(targets: seq<Target>, resolve: string -> Result<seq<string>, Error>): Result<seq<Target>, Error> {
    if targets == [] then Ok([])
    else
      var t := targets[|targets| - 1];
      match ResolveAll(targets[..|targets| - 1], resolve)
      case Err(e) => Err(e)
      case Ok(before) =>
        match resolve(t.location.dir)
        case Err(e) => Err(if Unresolvable(e) then e else Retryable(e))
        case Ok(dirs) => if dirs == [] then Err({ManifestNotFound}) else Ok(before + Redirected(t, dirs))
  }

  /** t resolves to directory d, among others. */
  predicate ResolvesTo(resolve: string -> Result<seq<string>, Error>, t: Target, d: string) {
    resolve(t.location.dir).Ok? && d in resolve(t.location.dir).value
  }

  /** The target resolves, to one directory at least. */
  predicate Resolves(resolve: string -> Result<seq<string>, Error>, t: Target) {
    resolve(t.location.dir).Ok? && resolve(t.location.dir).value != []
  }

  /** The change c is one the target asks for. */
  predicate Asks(resolve: string -> Result<seq<string>, Error>, t: Target, c: Change) {
    ResolvesTo(resolve, t, c.dir) && c == Change(c.dir, t.env, t.writesImageManifest)
  }

  ghost predicate Asked(resolve: string -> Result<seq<string>, Error>, targets: seq<Target>, c: Change) {
    exists i :: 0 <= i < |targets| && Asks(resolve, targets[i], c)
  }

  lemma AskedSnoc(resolve: string -> Result<seq<string>, Error>, targets: seq<Target>, t: Target, c: Change)
    ensures Asked(resolve, targets + [t], c) <==> Asked(resolve, targets, c) || Asks(resolve, t, c)
  {
    var all := targets + [t];
    if i :| 0 <= i < |targets| && Asks(resolve, targets[i], c) {
      assert all[i] == targets[i];
    }
    assert all[|targets|] == t;
    if i :| 0 <= i < |all| && Asks(resolve, all[i], c) {
      assert i < |targets| ==> all[i] == targets[i];
    }
  }

  /** Targets are resolved exactly if each of them is, and then into the change of every
      directory of every target, and no other. */
  lemma {:induction false} ResolvedExactly(targets: seq<Target>, resolve: string -> Result<seq<string>, Error>)
    ensures ResolveAll(targets, resolve).Ok? <==> forall i :: 0 <= i < |targets| ==> Resolves(resolve, targets[i])
    ensures ResolveAll(targets, resolve).Ok? ==>
              forall c :: c in Changes(ResolveAll(targets, resolve).value) <==> Asked(resolve, targets, c)
  {
    if targets != [] {
      var n := |targets| - 1;
      ResolvedExactly(targets[..n], resolve);
      assert targets == targets[..n] + [targets[n]];
      if ResolveAll(targets, resolve).Ok? {
        forall c ensures c in Changes(ResolveAll(targets, resolve).value) <==> Asked(resolve, targets, c) {
          AskedSnoc(resolve, targets[..n], targets[n], c);
          ResolvedSnoc(targets[..n], targets[n], resolve, c);
        }
      }
    }
  }

  lemma ResolvedSnoc(init: seq<Target>, t: Target, resolve: string -> Result<seq<string>, Error>, c: Change)
    requires ResolveAll(init + [t], resolve).Ok?
    ensures ResolveAll(init, resolve).Ok?
    ensures c in Changes(ResolveAll(init + [t], resolve).value) <==>
            c in Changes(ResolveAll(init, resolve).value) || Asks(resolve, t, c)
  {
    assert (init + [t])[..|init|] == init;
    var before, more := ResolveAll(init, resolve).value, Redirected(t, resolve(t.location.dir).value);
    assert ResolveAll(init + [t], resolve).value == before + more;
    assert Changes(before + more) == Changes(before) + Changes(more);
    RedirectedChanges(t, resolve(t.location.dir).value, c);
  }

  lemma RedirectedChanges(t: Target, dirs: seq<string>, c: Change)
    ensures c in Changes(Redirected(t, dirs)) <==> c.dir in dirs && c == Change(c.dir, t.env, t.writesImageManifest)
  {
    if c in Changes(Redirected(t, dirs)) {
      var i :| 0 <= i < |dirs| && Changes(Redirected(t, dirs))[i] == c;
    }
    if c.dir in dirs && c == Change(c.dir, t.env, t.writesImageManifest) {
      var i :| 0 <= i < |dirs| && dirs[i] == c.dir;
      assert Changes(Redirected(t, dirs))[i] == c;
    }
  }

  predicate Unpatchable(e: Error) { ManifestNotFound in e || InvalidManifest in e || ImageNotManaged in e }

  /** The files that patching the manifests in order builds up. */
  function PatchAll(manifests: seq<Target>, patch: (string, bool) -> Result<string, Error>): Result<Files, Error> {
    if manifests == [] then Ok(map[])
    else
      var m := manifests[|manifests| - 1];
      match PatchAll(manifests[..|manifests| - 1], patch)
      case Err(e) => Err(e)
      case Ok(files) =>
        match patch(m.location.dir, m.writesImageManifest)
        case Ok(text) => Ok(files[m.location.dir := text])
        case Err(e) =>
          if NoDifference in e then Ok(files) else Err(if Unpatchable(e) then e else Retryable(e))
  }

  function HeadOf(remote: Remote, branch: string): Option<Commit> {
    if branch in remote.branches then Some(remote.branches[branch]) else None
  }

  /** Whether a push moves the branch, whatever is reported of it. */
  predicate Arrives(remote: Remote, branch: string, commit: Commit, reply: PushReply) {
    match reply
    case PushAnswered(shallow) => Decide(HeadOf(remote, branch), commit, shallow) == Updated
    case PushBroken(arrives) => arrives && Decide(HeadOf(remote, branch), commit, false) == Updated
  }

  function AfterPush(remote: Remote, branch: string, commit: Commit, reply: PushReply): Remote {
    if Arrives(remote, branch, commit, reply)
    then Moved(remote, branch, commit)
    else remote
  }

  function PushError(remote: Remote, branch: string, commit: Commit, reply: PushReply): Option<Error> {
    match reply
    case PushBroken(_) => Some({})
    case PushAnswered(shallow) =>
      if Decide(HeadOf(remote, branch), commit, shallow) == Updated then None else Some({DuplicatePullRequest})
  }

  predicate IsSuccess(status: nat) { 200 <= status < 300 }

  predicate IsInvalid(status: nat) { status == 400 || status == 422 }

  predicate Creates(reply: CreateReply) {
    match reply case CreateAnswered(status) => IsSuccess(status) case CreateBroken(arrives) => arrives
  }

  function AfterCreate(remote: Remote, branch: string, reply: CreateReply): Remote {
    if Creates(reply) then remote.(open := remote.open + multiset{branch}, log := remote.log + [Opened(branch)])
      else remote
  }

  function CreateError(reply: CreateReply): Option<Error> {
    match reply
    case CreateBroken(_) => Some({})
    case CreateAnswered(status) =>
      if IsSuccess(status) then None else if IsInvalid(status) then Some({InvalidPullRequest}) else Some({})
  }

  function CreateStep(remote: Remote, task: Task, s: Script): (Remote, Option<Error>) {
    var after := AfterCreate(remote, task.branch, s.create);
    match CreateError(s.create)
    case None => (after, None)
    case Some(e) => (after, Some(if InvalidPullRequest in e then e else Retryable(e)))
  }

  function PushStep(remote: Remote, task: Task, s: Script, commit: Commit): (Remote, Option<Error>) {
    var after := AfterPush(remote, task.branch, commit, s.push);
    match PushError(remote, task.branch, commit, s.push)
    case None => CreateStep(after, task, s)
    case Some(e) =>
      if DuplicatePullRequest !in e then (after, Some(Retryable(e)))
      else
        var again := Lookup(after.open, Heads(task), s.lookup, |Heads(task)|);
        if again.Some? then (after, again) else CreateStep(after, task, s)
  }

  /** The commit an attempt makes of the rewritten files, on the base it cloned. */
  function CommitOf(remote: Remote, s: Script, files: Files): Commit { Commit([remote.base], files, s.stamp) }

  /** Why an attempt ends before anything is pushed, or the files it commits. */
  function Prepare(remote: Remote, task: Task, s: Script, manifests: seq<Target>): Result<Files, Error> {
    var first := Lookup(remote.open, Heads(task), s.lookup, 0);
    if first.Some? then Err(first.value)
    else if s.checkout.Some? then Err(Retryable(s.checkout.value))
    else
      match ResolveAll(task.targets, s.resolve)
      case Err(e) => Err(e)
      case Ok(resolved) =>
        if !Consistent(Changes(resolved)) then Err({IncompleteRule})
        else if s.createBranch.Some? then Err(Retryable(s.createBranch.value))
        else
          match PatchAll(manifests, s.patch)
          case Err(e) => Err(e)
          case Ok(files) =>
            if files == map[] then Err({NoDifference})
            else if s.commit.Some? then
              Err(if NoDifference in s.commit.value then s.commit.value else Retryable(s.commit.value))
            else Ok(files)
  }

  /** One attempt at one repository. */
  function Step(remote: Remote, task: Task, s: Script, manifests: seq<Target>): (Remote, Option<Error>) {
    match Prepare(remote, task, s, manifests)
    case Err(e) => (remote, Some(e))
    case Ok(files) => PushStep(remote, task, s, CommitOf(remote, s, files))
  }

  /** An attempt that gets to resolving its targets patches a normalization of what they resolve to. */
  ghost predicate Selected(remote: Remote, task: Task, s: Script, manifests: seq<Target>) {
    Lookup(remote.open, Heads(task), s.lookup, 0).None? && s.checkout.None? ==>
      match ResolveAll(task.targets, s.resolve)
      case Ok(resolved) => Consistent(Changes(resolved)) ==> Normalized(resolved, manifests)
      case Err(_) => true
  }

  // ---- The program ----

  class Host {
    var remotes: map<string, Remote>

    constructor (remotes: map<string, Remote>)
      ensures this.remotes == remotes
    {
      this.remotes := remotes;
    }

    method EnsureNoOpenPullRequest(key: string, task: Task, failure: nat -> Option<Error>, at: nat)
      returns (r: Option<Error>)
      requires key in remotes
      ensures r == Lookup(remotes[key].open, Heads(task), failure, at)
    {
      var branches := [task.branch];
      if task.legacy.Some? && task.legacy.value != task.branch {
        branches := branches + [task.legacy.value];
      }
      assert branches == Heads(task);
      for i := 0 to |branches|
        invariant Lookup(remotes[key].open, branches, failure, at) ==
                    Lookup(remotes[key].open, branches[i..], failure, at + i)
      {
        if failure(at + i).Some? {
          return Some(Retryable(failure(at + i).value));
        }
        if remotes[key].open[branches[i]] > 0 {
          return Some({DuplicatePullRequest});
        }
        assert branches[i..][1..] == branches[i + 1..];
      }
      return None;
    }

    /** Success means that the branch points at the commit; the error of a branch that is
        there already means that it is, and that it was left alone. Of any other failure
        nothing is known but that the branch was not moved against git's rule. */
    method Push(key: string, branch: string, commit: Commit, reply: PushReply) returns (r: Option<Error>)
      requires key in remotes
      modifies this
      ensures r == PushError(old(remotes)[key], branch, commit, reply)
      ensures remotes == old(remotes)[key := AfterPush(old(remotes)[key], branch, commit, reply)]
      ensures r.None? ==> HeadOf(remotes[key], branch) == Some(commit)
      ensures r.Some? && DuplicatePullRequest in r.value ==>
                branch in old(remotes)[key].branches && remotes == old(remotes)
      ensures r.None? || DuplicatePullRequest in r.value <==> reply.PushAnswered?
      ensures HeadOf(remotes[key], branch) != HeadOf(old(remotes)[key], branch) ==>
                HeadOf(remotes[key], branch) == Some(commit) &&
                (branch in old(remotes)[key].branches ==> IsAncestor(old(remotes)[key].branches[branch], commit))
    {
      var remote := remotes[key];
      var head := HeadOf(remote, branch);
      SeenIsAncestor(head, commit);
      match reply {
        case PushBroken(arrives) =>
          if arrives && Decide(head, commit, false) == Updated {
            remotes := remotes[key := Moved(remote, branch, commit)];
          }
          return Some({});
        case PushAnswered(shallow) =>
          match Decide(head, commit, shallow) {
            case Updated =>
              remotes := remotes[key := Moved(remote, branch, commit)];
              return None;
            case UpToDate =>
              return Some({DuplicatePullRequest});
            case NonFastForward =>
              return Some({DuplicatePullRequest});
          }
      }
    }

    /** Success means that a lookup that answers finds the pull request; an invalid pull
        request was not created. */
    method CreatePullRequest(key: string, branch: string, reply: CreateReply) returns (r: Option<Error>)
      requires key in remotes
      modifies this
      ensures r == CreateError(reply)
      ensures remotes == old(remotes)[key := AfterCreate(old(remotes)[key], branch, reply)]
      ensures r.None? ==> forall failure: nat -> Option<Error>, at: nat ::
                failure(at).None? ==> Lookup(remotes[key].open, [branch], failure, at) == Some({DuplicatePullRequest})
      ensures r.Some? && InvalidPullRequest in r.value ==> remotes == old(remotes)
    {
      var remote := remotes[key];
      match reply {
        case CreateBroken(arrives) =>
          if arrives {
            remotes := remotes[key := AfterCreate(remote, branch, reply)];
          }
          return Some({});
        case CreateAnswered(status) =>
          if !IsSuccess(status) {
            return if status == 400 || status == 422 then Some({InvalidPullRequest}) else Some({});
          }
          remotes := remotes[key := AfterCreate(remote, branch, reply)];
          return None;
      }
    }
  }

  function Moved(remote: Remote, branch: string, commit: Commit): Remote {
    remote.(branches := remote.branches[branch := commit], log := remote.log + [Pushed(branch, commit)])
  }

  /** What a shallow working copy sees as an ancestor is one. */
  lemma SeenIsAncestor(head: Option<Commit>, c: Commit)
    ensures head.Some? && (exists shallow :: Forwards(head.value, c, shallow)) ==> IsAncestor(head.value, c)
  {
    if head.Some? && head.value in c.parents {
      var i :| 0 <= i < |c.parents| && c.parents[i] == head.value;
      assert IsAncestor(head.value, c.parents[i]);
    }
  }

  method ResolveManifestTargets(task: Task, s: Script) returns (r: Result<seq<Target>, Error>)
    ensures match ResolveAll(task.targets, s.resolve)
            case Err(e) => r == Err(e)
            case Ok(resolved) =>
              if Consistent(Changes(resolved)) then r.Ok? && Normalized(resolved, r.value)
                else r == Err({IncompleteRule})
    ensures r.Ok? ==>
              && Sorting.Increasing(Dirs(Changes(r.value)))
              && forall c :: c in Changes(r.value) <==> Asked(s.resolve, task.targets, c)
  {
    var resolved: seq<Target> := [];
    for i := 0 to |task.targets|
      invariant ResolveAll(task.targets[..i], s.resolve) == Ok(resolved)
    {
      var t := task.targets[i];
      assert task.targets[..i + 1][..i] == task.targets[..i];
      var dirs := s.resolve(t.location.dir);
      if dirs.Err? {
        var e := if Unresolvable(dirs.error) then dirs.error else Retryable(dirs.error);
        ResolveErrorStays(task.targets, s.resolve, i + 1);
        return Err(e);
      }
      if |dirs.value| == 0 {
        ResolveErrorStays(task.targets, s.resolve, i + 1);
        return Err({ManifestNotFound});
      }
      resolved := resolved + Redirected(t, dirs.value);
    }
    assert task.targets[..|task.targets|] == task.targets;
    ResolvedExactly(task.targets, s.resolve);
    var normalized := NormalizeManifestTargets(resolved);
    r := if normalized.None? then Err({IncompleteRule}) else Ok(normalized.value);
  }

  lemma {:induction false} ResolveErrorStays(targets: seq<Target>, resolve: string -> Result<seq<string>, Error>,
                                             i: nat)
    requires i <= |targets| && ResolveAll(targets[..i], resolve).Err?
    ensures ResolveAll(targets, resolve) == ResolveAll(targets[..i], resolve)
  {
    if i < |targets| {
      assert targets[..|targets| - 1][..i] == targets[..i];
      ResolveErrorStays(targets[..|targets| - 1], resolve, i);
    } else {
      assert targets[..i] == targets;
    }
  }

  method PatchManifests(manifests: seq<Target>, patch: (string, bool) -> Result<string, Error>)
    returns (r: Result<Files, Error>)
    ensures r == PatchAll(manifests, patch)
  {
    var files: Files := map[];
    for i := 0 to |manifests|
      invariant PatchAll(manifests[..i], patch) == Ok(files)
    {
      var m := manifests[i];
      assert manifests[..i + 1][..i] == manifests[..i];
      var outcome := patch(m.location.dir, m.writesImageManifest);
      if outcome.Ok? {
        files := files[m.location.dir := outcome.value];
        continue;
      }
      if NoDifference in outcome.error {
        continue;
      }
      PatchErrorStays(manifests, patch, i + 1);
      if Unpatchable(outcome.error) {
        return Err(outcome.error);
      }
      return Err(Retryable(outcome.error));
    }
    assert manifests[..|manifests|] == manifests;
    return Ok(files);
  }

  lemma {:induction false} PatchErrorStays(manifests: seq<Target>, patch: (string, bool) -> Result<string, Error>,
                                           i: nat)
    requires i <= |manifests| && PatchAll(manifests[..i], patch).Err?
    ensures PatchAll(manifests, patch) == PatchAll(manifests[..i], patch)
  {
    if i < |manifests| {
      assert manifests[..|manifests| - 1][..i] == manifests[..i];
      PatchErrorStays(manifests[..|manifests| - 1], patch, i);
    } else {
      assert manifests[..i] == manifests;
    }
  }

  method ApplyRepository(host: Host, key: string, task: Task, s: Script)
    returns (r: Option<Error>, ghost manifests: seq<Target>)
    requires key in host.remotes
    modifies host
    ensures Selected(old(host.remotes)[key], task, s, manifests)
    ensures var (after, result) := Step(old(host.remotes)[key], task, s, manifests);
            r == result && host.remotes == old(host.remotes)[key := after]
  {
    manifests := [];
    assert host.remotes == host.remotes[key := host.remotes[key]];
    var open := host.EnsureNoOpenPullRequest(key, task, s.lookup, 0);
    if open.Some? {
      return open, manifests;
    }
    if s.checkout.Some? {
      return Some(Retryable(s.checkout.value)), manifests;
    }
    var resolved := ResolveManifestTargets(task, s);
    if resolved.Err? {
      return Some(resolved.error), manifests;
    }
    manifests := resolved.value;
    if s.createBranch.Some? {
      return Some(Retryable(s.createBranch.value)), manifests;
    }
    var patched := PatchManifests(resolved.value, s.patch);
    if patched.Err? {
      return Some(patched.error), manifests;
    }
    if patched.value == map[] {
      return Some({NoDifference}), manifests;
    }
    if s.commit.Some? {
      if NoDifference in s.commit.value {
        return s.commit, manifests;
      }
      return Some(Retryable(s.commit.value)), manifests;
    }
    var commit := CommitOf(host.remotes[key], s, patched.value);
    var pushed := host.Push(key, task.branch, commit, s.push);
    if pushed.Some? {
      if DuplicatePullRequest !in pushed.value {
        return Some(Retryable(pushed.value)), manifests;
      }
      var again := host.EnsureNoOpenPullRequest(key, task, s.lookup, |Heads(task)|);
      if again.Some? {
        return again, manifests;
      }
    }
    var created := host.CreatePullRequest(key, task.branch, s.create);
    if created.Some? {
      if InvalidPullRequest in created.value {
        return created, manifests;
      }
      return Some(Retryable(created.value)), manifests;
    }
    return None, manifests;
  }

  // ---- All repositories of an event ----

  datatype Job = Job(key: string, task: Task, script: Script, rendering: Option<Error>)

  ghost predicate DistinctKeys(jobs: seq<Job>) {
    forall i, j :: 0 <= i < j < |jobs| ==> jobs[i].key != jobs[j].key
  }

  function FirstRenderingError(jobs: seq<Job>): Option<Error> {
    if jobs == [] then None
    else if jobs[0].rendering.Some? then jobs[0].rendering
    else FirstRenderingError(jobs[1..])
  }

  /** The delivery is deleted from the queue; otherwise it comes back. */
  predicate Acknowledged(r: Option<Error>) { r.None? || !IsRetryable(r.value) }

  ghost predicate Attempted(before: map<string, Remote>, job: Job, manifests: seq<Target>, after: map<string, Remote>,
                            r: Option<Error>) {
    && job.key in before && job.key in after
    && Selected(before[job.key], job.task, job.script, manifests)
    && (after[job.key], r) == Step(before[job.key], job.task, job.script, manifests)
  }

  /** Every repository was attempted once, whatever became of the others, and nothing else changed. */
  ghost predicate Delivered(before: map<string, Remote>, jobs: seq<Job>, manifests: seq<seq<Target>>,
                            results: seq<Option<Error>>, after: map<string, Remote>) {
    && |jobs| == |manifests| == |results|
    && after.Keys == before.Keys
    && (forall i :: 0 <= i < |jobs| ==> Attempted(before, jobs[i], manifests[i], after, results[i]))
    && forall k :: k in before && Untouched(jobs, k) ==> after[k] == before[k]
  }

  ghost predicate Untouched(jobs: seq<Job>, k: string) {
    forall i :: 0 <= i < |jobs| ==> jobs[i].key != k
  }

  function Failures(results: seq<Option<Error>>): seq<Error> {
    if results == [] then []
    else
      var last := results[|results| - 1];
      Failures(results[..|results| - 1]) + if last.Some? then [last.value] else []
  }

  lemma {:induction false} InFailures(results: seq<Option<Error>>, e: Error)
    ensures e in Failures(results) <==> Some(e) in results
  {
    if results != [] {
      InFailures(results[..|results| - 1], e);
      assert results == results[..|results| - 1] + [results[|results| - 1]];
    }
  }

  /** A delivery is left on the queue exactly when some repository ended with a
      retryable failure, however the results are mixed. */
  lemma AcknowledgedExactly(results: seq<Option<Error>>)
    ensures Acknowledged(JoinErrors(Failures(results))) <==> forall i :: 0 <= i < |results| ==> Acknowledged(results[i])
  {
    var es := Failures(results);
    JoinIsRetryable(es);
    forall i | 0 <= i < |es| ensures Some(es[i]) in results {
      InFailures(results, es[i]);
    }
    forall i | 0 <= i < |results| && results[i].Some? ensures results[i].value in es {
      InFailures(results, results[i].value);
    }
    if i :| 0 <= i < |results| && !Acknowledged(results[i]) {
      var j :| 0 <= j < |es| && es[j] == results[i].value;
    }
  }

  /** Messages are rendered for every repository first, so that a template that fails
      leaves every remote untouched; then all repositories are attempted. */
  method Apply(host: Host, jobs: seq<Job>) returns (r: Option<Error>, ghost manifests: seq<seq<Target>>,
                                                    ghost results: seq<Option<Error>>)
    requires DistinctKeys(jobs) && forall i :: 0 <= i < |jobs| ==> jobs[i].key in host.remotes
    modifies host
    ensures FirstRenderingError(jobs).Some? ==> r == FirstRenderingError(jobs) && host.remotes == old(host.remotes)
    ensures FirstRenderingError(jobs).None? ==>
              Delivered(old(host.remotes), jobs, manifests, results, host.remotes) && r == JoinErrors(Failures(results))
  {
    manifests, results := [], [];
    var rendering := RenderAll(jobs);
    if rendering.Some? {
      return rendering, manifests, results;
    }
    var failures: seq<Error> := [];
    for i := 0 to |jobs|
      invariant Delivered(old(host.remotes), jobs[..i], manifests, results, host.remotes)
      invariant failures == Failures(results)
    {
      ghost var before, given := host.remotes, results;
      StillUntouched(old(host.remotes), jobs, i, manifests, results, before);
      var result;
      ghost var selected;
      result, selected := ApplyRepository(host, jobs[i].key, jobs[i].task, jobs[i].script);
      DeliveredNext(old(host.remotes), jobs, i, manifests, results, before, selected, host.remotes, result);
      manifests, results := manifests + [selected], results + [result];
      assert results[..i] == given;
      if result.Some? {
        failures := failures + [result.value];
      }
    }
    assert jobs[..|jobs|] == jobs;
    r := JoinErrors(failures);
  }

  method RenderAll(jobs: seq<Job>) returns (r: Option<Error>)
    ensures r == FirstRenderingError(jobs)
  {
    for i := 0 to |jobs|
      invariant FirstRenderingError(jobs) == FirstRenderingError(jobs[i..])
    {
      assert jobs[i..][1..] == jobs[i + 1..];
      if jobs[i].rendering.Some? {
        return jobs[i].rendering;
      }
    }
    return None;
  }

  lemma StillUntouched(start: map<string, Remote>, jobs: seq<Job>, i: nat, manifests: seq<seq<Target>>,
                       results: seq<Option<Error>>, before: map<string, Remote>)
    requires DistinctKeys(jobs) && i < |jobs| && Delivered(start, jobs[..i], manifests, results, before)
    requires jobs[i].key in start
    ensures before[jobs[i].key] == start[jobs[i].key]
  {
    assert Untouched(jobs[..i], jobs[i].key);
  }

  lemma DeliveredNext(start: map<string, Remote>, jobs: seq<Job>, i: nat, manifests: seq<seq<Target>>,
                      results: seq<Option<Error>>,
                      before: map<string, Remote>, selected: seq<Target>, after: map<string, Remote>,
                      result: Option<Error>)
    requires DistinctKeys(jobs) && i < |jobs| && Delivered(start, jobs[..i], manifests, results, before)
    requires jobs[i].key in start && before[jobs[i].key] == start[jobs[i].key]
    requires Selected(before[jobs[i].key], jobs[i].task, jobs[i].script, selected)
    requires var (next, r) := Step(before[jobs[i].key], jobs[i].task, jobs[i].script, selected);
             result == r && after == before[jobs[i].key := next]
    ensures Delivered(start, jobs[..i + 1], manifests + [selected], results + [result], after)
  {
    forall j | 0 <= j <= i
      ensures Attempted(start, jobs[..i + 1][j], (manifests + [selected])[j], after, (results + [result])[j]) {
      if j < i {
        assert Attempted(start, jobs[..i][j], manifests[j], before, results[j]);
      }
    }
    var upTo := jobs[..i + 1];
    forall k | k in start && Untouched(upTo, k) ensures after[k] == start[k] {
      assert upTo[i].key != k;
      forall j | 0 <= j < |jobs[..i]| ensures jobs[..i][j].key != k {
        assert upTo[j].key != k;
      }
      assert Untouched(jobs[..i], k);
    }
  }
}
