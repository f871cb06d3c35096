/** Branch identities: internal/application/updater/service.go, lines 547 to 626. */
module Branches {
  import opened Text
  import opened Planning

  const NUL := "\0"

  function RepositoryKey(naming: Naming, l: Location): string {
    naming.lower(l.owner) + NUL + naming.lower(l.repository)
  }

  function Flattened(targets: seq<Target>): seq<string> {
    if targets == [] then [] else [targets[0].location.dir, targets[0].env] + Flattened(targets[1..])
  }

  /** The fields hashed into a branch name. */
  function IdentityFields(naming: Naming, event: Event, env: string, location: Location,
                          targets: seq<Target>): seq<string> {
    if |targets| == 1 then
      [event.host, event.repository, targets[0].location.repositoryURL, targets[0].location.dir, env, event.tag]
    else
      [event.host, event.repository, RepositoryKey(naming, location), event.tag] + Flattened(targets)
  }

  function Identity(naming: Naming, event: Event, env: string, location: Location, targets: seq<Target>): string {
    Join(IdentityFields(naming, event, env, location, targets), NUL)
  }

  /** The image without its leading namespace. */
  function ImageName(repository: string): string {
    var segments := Split(TrimSlashes(repository), '/');
    Join(if |segments| > 1 then segments[1..] else segments, "/")
  }

  function ReadablePart(event: Event, env: string): string {
    "image_updater_" + Join(Split(ImageName(event.repository), '/'), "_") + "_" + env + "_" + event.tag
  }

  function RepositoryBranchName(naming: Naming, event: Event, env: string, location: Location,
                                targets: seq<Target>): string {
    ReadablePart(event, env) + "_" + naming.digest(Identity(naming, event, env, location, targets))
  }

  /** The name used by earlier releases, for a single target only. */
  function LegacyBranchName(event: Event, env: string, targets: seq<Target>): Option<string> {
    if |targets| == 1 then Some(ReadablePart(event, env)) else None
  }

  predicate IsInvalidInBranch(c: char) {
    c in {' ', '\t', '~', '^', ':', '?', '*', '[', '\\', '\U{7F}'}
  }

  predicate ContainsDots(s: string) { exists i :: 0 <= i < |s| - 1 && s[i] == '.' && s[i + 1] == '.' }

  predicate HasSuffix(s: string, suffix: string) { |suffix| <= |s| && s[|s| - |suffix|..] == suffix }

  predicate ValidBranch(branch: string) {
    && branch != "" && !ContainsDots(branch) && !HasSuffix(branch, ".")
    && branch[0] != '-' && !HasSuffix(branch, ".lock")
    && forall i :: 0 <= i < |branch| ==> !IsInvalidInBranch(branch[i])
  }

  // ---- How branches read ----

  /** The branch of an image "ns/a/b" with one or several leading segments: its name without
      the first, underscores for slashes, then environment, tag and digest. */
  lemma BranchIsReadable(naming: Naming, event: Event, env: string, location: Location, targets: seq<Target>,
                         path: seq<string>)
    requires path != [] && forall i :: 0 <= i < |path| ==> path[i] != "" && Free(path[i], '/')
    requires event.repository == Join(path, "/")
    ensures RepositoryBranchName(naming, event, env, location, targets) ==
            "image_updater_" + Join(WithoutNamespace(path), "_") + "_" + env + "_" + event.tag + "_" +
            naming.digest(Identity(naming, event, env, location, targets))
  {
    var rest := WithoutNamespace(path);
    ImageNameSplits(event.repository, path);
    ImageNameSplits(Join(rest, "/"), rest);
    assert ImageName(event.repository) == Join(rest, "/");
  }

  function WithoutNamespace(path: seq<string>): seq<string> { if |path| > 1 then path[1..] else path }

  lemma ImageNameSplits(name: string, parts: seq<string>)
    requires parts != [] && forall i :: 0 <= i < |parts| ==> parts[i] != "" && Free(parts[i], '/')
    requires name == Join(parts, "/")
    ensures Split(TrimSlashes(name), '/') == parts && Split(name, '/') == parts
  {
    JoinEnds(parts, "/");
    UntrimmedStays(name);
    SplitJoin(parts, '/');
  }

  /** With one target, and only then, earlier releases had a name: the branch without its digest. */
  lemma LegacyIsWithoutDigest(naming: Naming, event: Event, env: string, location: Location, targets: seq<Target>)
    requires forall s :: |naming.digest(s)| == 16
    ensures var b := RepositoryBranchName(naming, event, env, location, targets);
            LegacyBranchName(event, env, targets) == if |targets| == 1 then Some(b[..|b| - 17]) else None
  {
    var b := RepositoryBranchName(naming, event, env, location, targets);
    assert b[..|b| - 17] == ReadablePart(event, env);
  }

  /** Two locations are in one repository exactly when owner and name differ in case at most. */
  lemma KeyExactly(naming: Naming, l: Location, m: Location)
    requires KeyNulFree(naming, l) && KeyNulFree(naming, m)
    ensures RepositoryKey(naming, l) == RepositoryKey(naming, m) <==>
            naming.lower(l.owner) == naming.lower(m.owner) && naming.lower(l.repository) == naming.lower(m.repository)
  {
    KeySplits(naming, l);
    KeySplits(naming, m);
  }

  lemma KeySplits(naming: Naming, l: Location)
    requires KeyNulFree(naming, l)
    ensures Split(RepositoryKey(naming, l), '\0') == [naming.lower(l.owner), naming.lower(l.repository)]
  {
    var owner, repository := naming.lower(l.owner), naming.lower(l.repository);
    assert RepositoryKey(naming, l) == owner + ['\0'] + repository;
    SplitPrefix(owner, repository, '\0');
    SplitFree(repository, '\0');
  }

  // ---- Which branches git accepts ----

  predicate NoTwoDots(s: string) { forall i :: 0 <= i < |s| - 1 ==> s[i] != '.' || s[i + 1] != '.' }

  predicate NoRefusedCharacter(s: string) {
    forall i :: 0 <= i < |s| ==> s[i] !in {' ', '\t', '~', '^', ':', '?', '*', '[', '\\', '\U{7F}'}
  }

  /** A part of a name git accepts: no "..", none of the characters it refuses. */
  predicate FitForGit(part: string) { NoTwoDots(part) && NoRefusedCharacter(part) }

  predicate IsHexDigit(c: char) { '0' <= c <= '9' || 'a' <= c <= 'f' }

  lemma DotsBehind(a: string, b: string)
    ensures NoTwoDots(a + "_" + b) <==> NoTwoDots(a) && NoTwoDots(b)
  {
    var s := a + "_" + b;
    assert |s| == |a| + 1 + |b| && s[|a|] == '_';
    assert forall i :: 0 <= i < |a| ==> s[i] == a[i];
    assert forall i :: 0 <= i < |b| ==> s[|a| + 1 + i] == b[i];
    if NoTwoDots(a) && NoTwoDots(b) {
      forall i | 0 <= i < |s| - 1 ensures s[i] != '.' || s[i + 1] != '.' {
        if i > |a| {
          assert s[i] == b[i - |a| - 1] && s[i + 1] == b[i - |a|];
        }
      }
    }
    if NoTwoDots(s) {
      forall i | 0 <= i < |b| - 1 ensures b[i] != '.' || b[i + 1] != '.' {
        assert s[|a| + 1 + i] == b[i] && s[|a| + 1 + i + 1] == b[i + 1];
      }
    }
  }

  lemma CharactersBehind(a: string, b: string)
    ensures NoRefusedCharacter(a + "_" + b) <==> NoRefusedCharacter(a) && NoRefusedCharacter(b)
  {
    var s := a + "_" + b;
    assert forall i :: 0 <= i < |s| ==> s[i] == if i < |a| then a[i] else if i == |a| then '_' else b[i - |a| - 1];
    assert forall i :: 0 <= i < |a| ==> s[i] == a[i];
    assert forall i :: 0 <= i < |b| ==> s[|a| + 1 + i] == b[i];
  }

  lemma FitBehind(a: string, b: string)
    ensures FitForGit(a + "_" + b) <==> FitForGit(a) && FitForGit(b)
  {
    DotsBehind(a, b);
    CharactersBehind(a, b);
  }

  /** A planned branch is refused exactly when the image, the environment or the tag brings
      in something that git refuses: the fixed parts of the name never do. */
  lemma ValidExactly(naming: Naming, event: Event, env: string, location: Location, targets: seq<Target>)
    requires forall s :: |naming.digest(s)| == 16 && forall i :: 0 <= i < 16 ==> IsHexDigit(naming.digest(s)[i])
    ensures ValidBranch(RepositoryBranchName(naming, event, env, location, targets)) <==>
            FitForGit(ImageName(event.repository)) && FitForGit(env) && FitForGit(event.tag)
  {
    var digest := naming.digest(Identity(naming, event, env, location, targets));
    var image := Join(Split(ImageName(event.repository), '/'), "_");
    var b := RepositoryBranchName(naming, event, env, location, targets);
    var parts := image + "_" + (env + "_" + (event.tag + "_" + digest));
    BranchInParts(naming, event, env, location, targets);
    BranchEndsInDigest(naming, event, env, location, targets);
    PartsFit(image, env, event.tag, digest);
    FitBehind("image_updater", parts);
    SlashesFit(ImageName(event.repository));
    PrefixFits();
    HexFits(digest);
    ValidIsFit(b, digest);
  }

  lemma BranchInParts(naming: Naming, event: Event, env: string, location: Location, targets: seq<Target>)
    ensures var image := Join(Split(ImageName(event.repository), '/'), "_");
            var digest := naming.digest(Identity(naming, event, env, location, targets));
            var b := RepositoryBranchName(naming, event, env, location, targets);
            b == "image_updater" + "_" + (image + "_" + (env + "_" + (event.tag + "_" + digest))) && b[0] == 'i'
  {
  }

  lemma PartsFit(image: string, env: string, tag: string, digest: string)
    ensures FitForGit(image + "_" + (env + "_" + (tag + "_" + digest))) <==>
            FitForGit(image) && FitForGit(env) && FitForGit(tag) && FitForGit(digest)
  {
    FitBehind(image, env + "_" + (tag + "_" + digest));
    FitBehind(env, tag + "_" + digest);
    FitBehind(tag, digest);
  }

  lemma PrefixFits()
    ensures FitForGit("image_updater")
  {
    var s := "image_updater";
    assert forall i :: 0 <= i < |s| ==> s[i] != '.';
  }

  lemma HexFits(digest: string)
    requires forall i :: 0 <= i < |digest| ==> IsHexDigit(digest[i])
    ensures FitForGit(digest)
  {
  }

  lemma SlashesFit(s: string)
    ensures FitForGit(Join(Split(s, '/'), "_")) <==> FitForGit(s)
  {
    SplitReplaces(s, '/', '_');
    ReplacedFits(s, Join(Split(s, '/'), "_"));
  }

  lemma ReplacedFits(s: string, r: string)
    requires |r| == |s| && forall i :: 0 <= i < |s| ==> r[i] == if s[i] == '/' then '_' else s[i]
    ensures FitForGit(r) <==> FitForGit(s)
  {
    if NoTwoDots(r) {
      forall i | 0 <= i < |s| - 1 ensures s[i] != '.' || s[i + 1] != '.' {
        assert r[i] != '.' || r[i + 1] != '.';
      }
    }
    if NoRefusedCharacter(r) {
      forall i | 0 <= i < |s| ensures s[i] !in {' ', '\t', '~', '^', ':', '?', '*', '[', '\\', '\U{7F}'} {
        assert r[i] !in {' ', '\t', '~', '^', ':', '?', '*', '[', '\\', '\U{7F}'};
      }
    }
  }

  /** Of a name that ends in hexadecimal digits and starts with a letter nothing else can be refused. */
  lemma ValidIsFit(b: string, digest: string)
    requires |digest| == 16 && |b| >= 17 && b[|b| - 16..] == digest && b[0] == 'i'
    requires forall i :: 0 <= i < 16 ==> IsHexDigit(digest[i])
    ensures ValidBranch(b) <==> FitForGit(b)
  {
    assert b[|b| - 1] == digest[15];
    assert b[|b| - 1..] == [b[|b| - 1]];
    assert b[|b| - 5..][4] == b[|b| - 1];
    assert ".lock"[4] == 'k';
    assert ContainsDots(b) <==> !NoTwoDots(b);
    if NoRefusedCharacter(b) {
      forall i | 0 <= i < |b| ensures !IsInvalidInBranch(b[i]) {
      }
    }
  }

  // ---- Identities determine what they were made of ----

  predicate NulFree(s: string) { Free(s, '\0') }

  predicate EventNulFree(e: Event) { NulFree(e.host) && NulFree(e.repository) && NulFree(e.tag) }

  predicate TargetsNulFree(ts: seq<Target>) {
    forall i :: 0 <= i < |ts| ==>
      NulFree(ts[i].location.repositoryURL) && NulFree(ts[i].location.dir) && NulFree(ts[i].env)
  }

  predicate KeyNulFree(naming: Naming, l: Location) {
    NulFree(naming.lower(l.owner)) && NulFree(naming.lower(l.repository))
  }

  /** The fields with the repository key taken apart: 6 for one target, 5 + 2n for n others. */
  function Atoms(naming: Naming, event: Event, env: string, location: Location, targets: seq<Target>): seq<string> {
    if |targets| == 1 then IdentityFields(naming, event, env, location, targets)
    else
      [event.host, event.repository, naming.lower(location.owner), naming.lower(location.repository),
       event.tag] + Flattened(targets)
  }

  lemma {:induction false} FlattenedShape(targets: seq<Target>)
    ensures |Flattened(targets)| == 2 * |targets|
    ensures TargetsNulFree(targets) ==> forall i :: 0 <= i < |Flattened(targets)| ==> NulFree(Flattened(targets)[i])
  {
    if targets != [] {
      FlattenedShape(targets[1..]);
    }
  }

  lemma {:induction false} FlattenedDetermines(ts: seq<Target>, us: seq<Target>)
    requires Flattened(ts) == Flattened(us)
    ensures |ts| == |us| && forall i :: 0 <= i < |ts| ==>
              ts[i].location.dir == us[i].location.dir && ts[i].env == us[i].env
  {
    FlattenedShape(ts);
    FlattenedShape(us);
    if ts != [] {
      var f, g := Flattened(ts), Flattened(us);
      assert f[0] == g[0] && f[1] == g[1];
      assert f[2..] == Flattened(ts[1..]) && g[2..] == Flattened(us[1..]);
      FlattenedDetermines(ts[1..], us[1..]);
    }
  }

  lemma IdentityJoinsAtoms(naming: Naming, event: Event, env: string, location: Location, targets: seq<Target>)
    ensures Identity(naming, event, env, location, targets) == Join(Atoms(naming, event, env, location, targets), NUL)
  {
    if |targets| != 1 {
      var rest := [event.tag] + Flattened(targets);
      var o, r := naming.lower(location.owner), naming.lower(location.repository);
      assert IdentityFields(naming, event, env, location, targets) ==
          [event.host] + ([event.repository] + ([o + NUL + r] + rest));
      assert Atoms(naming, event, env, location, targets) == [event.host] + ([event.repository] + ([o] + ([r] + rest)));
      JoinBehind(event.host, event.repository, [o + NUL + r] + rest, [o] + ([r] + rest));
    }
  }

  lemma JoinBehind(x: string, y: string, p: seq<string>, q: seq<string>)
    requires p != [] && q != [] && Join(p, NUL) == Join(q, NUL)
    ensures Join([x] + ([y] + p), NUL) == Join([x] + ([y] + q), NUL)
  {
  }

  lemma AtomsNulFree(naming: Naming, event: Event, env: string, location: Location, targets: seq<Target>)
    requires EventNulFree(event) && NulFree(env) && KeyNulFree(naming, location) && TargetsNulFree(targets)
    ensures forall i :: 0 <= i < |Atoms(naming, event, env, location, targets)| ==>
              NulFree(Atoms(naming, event, env, location, targets)[i])
    ensures |Atoms(naming, event, env, location, targets)| == if |targets| == 1 then 6 else 5 + 2 * |targets|
  {
    FlattenedShape(targets);
  }

  /** Equal identities agree on the event, on the manifest repository and on every
      directory and environment; one target is never mistaken for several. */
  lemma IdentityIsFaithful(naming: Naming, e: Event, env: string, l: Location, ts: seq<Target>,
                           f: Event, env': string, m: Location, us: seq<Target>)
    requires EventNulFree(e) && NulFree(env) && KeyNulFree(naming, l) && TargetsNulFree(ts) && ts != []
    requires EventNulFree(f) && NulFree(env') && KeyNulFree(naming, m) && TargetsNulFree(us) && us != []
    requires Identity(naming, e, env, l, ts) == Identity(naming, f, env', m, us)
    ensures e == f && |ts| == |us|
    ensures forall i :: 0 <= i < |ts| ==> ts[i].location.dir == us[i].location.dir
    ensures |ts| == 1 ==> env == env' && ts[0].location.repositoryURL == us[0].location.repositoryURL
    ensures |ts| > 1 ==> RepositoryKey(naming, l) == RepositoryKey(naming, m) && forall i :: 0 <= i < |ts| ==>
              ts[i].env == us[i].env
  {
    var a, b := Atoms(naming, e, env, l, ts), Atoms(naming, f, env', m, us);
    IdentityJoinsAtoms(naming, e, env, l, ts);
    IdentityJoinsAtoms(naming, f, env', m, us);
    AtomsNulFree(naming, e, env, l, ts);
    AtomsNulFree(naming, f, env', m, us);
    SplitJoin(a, '\0');
    SplitJoin(b, '\0');
    assert a == b;
    if |ts| == 1 {
      assert a[0] == e.host && a[1] == e.repository && a[5] == e.tag;
    } else {
      assert a[0] == e.host && a[1] == e.repository && a[4] == e.tag;
      assert a[2] == b[2] && a[3] == b[3];
      assert a[5..] == Flattened(ts) && b[5..] == Flattened(us);
      FlattenedDetermines(ts, us);
    }
  }

  lemma BranchEndsInDigest(naming: Naming, e: Event, env: string, l: Location, ts: seq<Target>)
    requires forall s :: |naming.digest(s)| == 16
    ensures var b := RepositoryBranchName(naming, e, env, l, ts);
            |b| >= 16 && b[|b| - 16..] == naming.digest(Identity(naming, e, env, l, ts))
  {
  }

  /** Unless the digest collides on the two identities, equal branch names come from
      the same event, manifest repository, directories and environments. */
  lemma BranchIsFaithful(naming: Naming, e: Event, env: string, l: Location, ts: seq<Target>,
                         f: Event, env': string, m: Location, us: seq<Target>)
    requires EventNulFree(e) && NulFree(env) && KeyNulFree(naming, l) && TargetsNulFree(ts) && ts != []
    requires EventNulFree(f) && NulFree(env') && KeyNulFree(naming, m) && TargetsNulFree(us) && us != []
    requires forall s :: |naming.digest(s)| == 16
    requires naming.digest(Identity(naming, e, env, l, ts)) == naming.digest(Identity(naming, f, env', m, us)) ==>
               Identity(naming, e, env, l, ts) == Identity(naming, f, env', m, us)
    requires RepositoryBranchName(naming, e, env, l, ts) == RepositoryBranchName(naming, f, env', m, us)
    ensures e == f && |ts| == |us|
    ensures forall i :: 0 <= i < |ts| ==> ts[i].location.dir == us[i].location.dir
    ensures |ts| == 1 ==> env == env' && ts[0].location.repositoryURL == us[0].location.repositoryURL
    ensures |ts| > 1 ==> RepositoryKey(naming, l) == RepositoryKey(naming, m) && forall i :: 0 <= i < |ts| ==>
              ts[i].env == us[i].env
  {
    BranchEndsInDigest(naming, e, env, l, ts);
    BranchEndsInDigest(naming, f, env', m, us);
    IdentityIsFaithful(naming, e, env, l, ts, f, env', m, us);
  }

  // ---- What an identity does not depend on ----

  lemma {:induction false} FlattenedByChanges(ts: seq<Target>, us: seq<Target>)
    requires Changes(ts) == Changes(us)
    ensures Flattened(ts) == Flattened(us)
  {
    assert |Changes(ts)| == |Changes(us)|;
    if ts != [] {
      assert Changes(ts)[0] == Changes(us)[0];
      assert Changes(ts[1..]) == Changes(ts)[1..] && Changes(us[1..]) == Changes(us)[1..];
      FlattenedByChanges(ts[1..], us[1..]);
    }
  }

  /** With several targets the branch depends neither on the order in which the rules
      are declared nor on the case in which they spell the repository. */
  lemma ManyTargetsIgnoreOrderAndCase(naming: Naming, event: Event, env: string,
                                      l: Location, ts: seq<Target>, us: seq<Target>, m: Location, vs: seq<Target>,
                                      ws: seq<Target>)
    requires Normalized(ts, us) && Normalized(vs, ws) && |us| != 1
    requires forall c :: c in Changes(ts) <==> c in Changes(vs)
    requires RepositoryKey(naming, l) == RepositoryKey(naming, m)
    ensures RepositoryBranchName(naming, event, env, l, us) == RepositoryBranchName(naming, event, env, m, ws)
  {
    NormalizedIsUnique(ts, us, vs, ws);
    assert |Changes(us)| == |Changes(ws)|;
    FlattenedByChanges(us, ws);
  }

  /** With one target it does depend on the spelling: the identity is the same exactly
      when the repository URL is. */
  lemma OneTargetKeepsCase(naming: Naming, event: Event, env: string, l: Location, t: Target, m: Location, u: Target)
    requires EventNulFree(event) && NulFree(env) && KeyNulFree(naming, l) && KeyNulFree(naming, m)
    requires TargetsNulFree([t]) && TargetsNulFree([u]) && ChangeOf(t) == ChangeOf(u)
    ensures Identity(naming, event, env, l, [t]) == Identity(naming, event, env, m, [u]) <==>
            t.location.repositoryURL == u.location.repositoryURL
  {
    if Identity(naming, event, env, l, [t]) == Identity(naming, event, env, m, [u]) {
      IdentityIsFaithful(naming, event, env, l, [t], event, env, m, [u]);
    } else {
      assert IdentityFields(naming, event, env, l, [t]) != IdentityFields(naming, event, env, m, [u]);
    }
  }
}
