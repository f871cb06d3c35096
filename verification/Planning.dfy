/** Planning an event: grouping the accepted rules by manifest repository, and the
    branch each group is pushed on (internal/application/updater/service.go). */
module Planning {
  import opened Text
  import opened Errors
  import Sorting

  datatype Event = Event(host: string, repository: string, tag: string)

  datatype Location = Location(repositoryURL: string, owner: string, repository: string, dir: string)

  datatype Target = Target(location: Location, env: string, writesImageManifest: bool)

  /** A matched rule, as far as planning looks at it. */
  datatype Matched = Matched(tagError: Option<Error>, location: Result<Location, Error>, env: string,
                             wantsManifest: bool)

  datatype RepositoryPlan = RepositoryPlan(location: Location, targets: seq<Target>, env: string, branch: string)

  /** strings.ToLower and the first eight bytes of SHA-256, in hexadecimal. */
  datatype Naming = Naming(lower: string -> string, digest: string -> string)

  // ---- Targets of one repository ----

  /** A target without the spelling of its repository: what is done to which directory. */
  datatype Change = Change(dir: string, env: string, writesImageManifest: bool)

  function ChangeOf(t: Target): Change { Change(t.location.dir, t.env, t.writesImageManifest) }

  function Changes(ts: seq<Target>): (cs: seq<Change>)
    ensures |cs| == |ts| && forall i :: 0 <= i < |ts| ==> cs[i] == ChangeOf(ts[i])
  {
    seq(|ts|, i requires 0 <= i < |ts| => ChangeOf(ts[i]))
  }

  function Dirs(cs: seq<Change>): (ds: seq<string>)
    ensures |ds| == |cs| && forall i :: 0 <= i < |cs| ==> ds[i] == cs[i].dir
  {
    seq(|cs|, i requires 0 <= i < |cs| => cs[i].dir)
  }

  /** No directory is to be changed in two ways. */
  predicate Consistent(cs: seq<Change>) {
    forall i, j :: 0 <= i < |cs| && 0 <= j < |cs| && cs[i].dir == cs[j].dir ==> cs[i] == cs[j]
  }

  /** Targets agree exactly when those of one directory have one environment and are of one
      mind about the metadata block. */
  lemma ConsistentExactly(ts: seq<Target>)
    ensures Consistent(Changes(ts)) <==>
            forall i, j :: 0 <= i < |ts| && 0 <= j < |ts| && ts[i].location.dir == ts[j].location.dir ==>
              ts[i].env == ts[j].env && ts[i].writesImageManifest == ts[j].writesImageManifest
  {
    var cs := Changes(ts);
    if !Consistent(cs) {
      var i, j :| 0 <= i < |cs| && 0 <= j < |cs| && cs[i].dir == cs[j].dir && cs[i] != cs[j];
      assert ts[i].location.dir == ts[j].location.dir;
    }
    if i, j :| 0 <= i < |ts| && 0 <= j < |ts| && ts[i].location.dir == ts[j].location.dir &&
               !(ts[i].env == ts[j].env && ts[i].writesImageManifest == ts[j].writesImageManifest) {
      assert cs[i].dir == cs[j].dir && cs[i] != cs[j];
    }
  }

  /** us makes the changes of ts, one a directory, in increasing order of directory. */
  ghost predicate Normalized(ts: seq<Target>, us: seq<Target>) {
    && Sorting.Increasing(Dirs(Changes(us)))
    && (forall u :: u in us ==> u in ts)
    && forall c :: c in Changes(us) <==> c in Changes(ts)
  }

  predicate TargetAtMost(t: Target, u: Target) {
    if t.location.dir == u.location.dir then AtMost(t.env, u.env) else Less(t.location.dir, u.location.dir)
  }

  lemma TargetsOrdered()
    ensures Sorting.TotalPreorder(TargetAtMost)
  {
    forall a, b ensures TargetAtMost(a, b) || TargetAtMost(b, a) {
      LessTotal(a.location.dir, b.location.dir);
      LessTotal(a.env, b.env);
    }
    forall a, b, c | TargetAtMost(a, b) && TargetAtMost(b, c) ensures TargetAtMost(a, c) {
      if a.location.dir != b.location.dir && b.location.dir != c.location.dir {
        LessTransitive(a.location.dir, b.location.dir, c.location.dir);
        LessAsymmetric(a.location.dir, c.location.dir);
      } else if a.location.dir == b.location.dir == c.location.dir && a.env != b.env && b.env != c.env {
        LessTransitive(a.env, b.env, c.env);
      }
    }
  }

  lemma SameChanges(ts: seq<Target>, us: seq<Target>)
    requires forall t :: t in ts <==> t in us
    ensures forall c :: c in Changes(ts) <==> c in Changes(us)
  {
    forall c ensures c in Changes(ts) <==> c in Changes(us) {
      if c in Changes(ts) {
        var i :| 0 <= i < |ts| && Changes(ts)[i] == c;
        assert ts[i] in us;
        var j :| 0 <= j < |us| && us[j] == ts[i];
        assert Changes(us)[j] == c;
      }
      if c in Changes(us) {
        var i :| 0 <= i < |us| && Changes(us)[i] == c;
        assert us[i] in ts;
        var j :| 0 <= j < |ts| && ts[j] == us[i];
        assert Changes(ts)[j] == c;
      }
    }
  }

  /** One more target: kept if it is the first of its directory, dropped if it repeats the
      last one, nothing if it contradicts it. */
  function Next(us: seq<Target>, t: Target): Option<seq<Target>> {
    if us == [] || us[|us| - 1].location.dir != t.location.dir then Some(us + [t])
    else if ChangeOf(us[|us| - 1]) == ChangeOf(t) then Some(us)
    else None
  }

  function Compacted(ts: seq<Target>): Option<seq<Target>> {
    if ts == [] then Some([])
    else
      match Compacted(ts[..|ts| - 1])
      case None => None
      case Some(us) => Next(us, ts[|ts| - 1])
  }

  lemma CompactedNext(ts: seq<Target>, i: nat)
    requires i < |ts|
    ensures Compacted(ts[..i + 1]) == match Compacted(ts[..i]) case None => None case Some(us) => Next(us, ts[i])
  {
    assert ts[..i + 1][..i] == ts[..i];
  }

  lemma {:induction false} ConflictStays(ts: seq<Target>, i: nat)
    requires i <= |ts| && Compacted(ts[..i]).None?
    ensures Compacted(ts).None?
  {
    if i < |ts| {
      assert ts[..|ts| - 1][..i] == ts[..i];
      ConflictStays(ts[..|ts| - 1], i);
    } else {
      assert ts[..i] == ts;
    }
  }

  /** In-place compaction. */
  method Compact(a: array<Target>) returns (n: nat, conflict: bool)
    modifies a
    ensures n <= a.Length
    ensures Compacted(old(a[..])) == if conflict then None else Some(a[..n])
  {
    ghost var s, kept := a[..], [];
    n, conflict := 0, false;
    for i := 0 to a.Length
      invariant n <= i && a[..n] == kept
      invariant forall j :: i <= j < a.Length ==> a[j] == s[j]
      invariant Compacted(s[..i]) == Some(kept)
    {
      var target := a[i];
      CompactedNext(s, i);
      if n > 0 && a[n - 1].location.dir == target.location.dir {
        assert kept[|kept| - 1] == a[n - 1];
        if a[n - 1].env != target.env || a[n - 1].writesImageManifest != target.writesImageManifest {
          ConflictStays(s, i + 1);
          return n, true;
        }
        continue;
      }
      a[n] := target;
      n := n + 1;
      kept := kept + [target];
    }
    assert s[..a.Length] == s;
  }

  /** Of targets sorted by directory, compaction keeps one a directory, and it gives up
      exactly when two targets of a directory disagree. */
  lemma {:induction false} CompactedIsNormalized(ts: seq<Target>)
    requires Sorting.SortedBy(TargetAtMost, ts)
    ensures match Compacted(ts) case Some(us) => Kept(ts, us) case None => !Consistent(Changes(ts))
  {
    if ts != [] {
      var k := |ts| - 1;
      var before, t := ts[..k], ts[k];
      assert ts == before + [t];
      CompactedIsNormalized(before);
      match Compacted(before) {
        case None => Disagrees(before, t);
        case Some(us) => KeptNext(before, us, t);
      }
    }
  }

  lemma KeptNext(before: seq<Target>, us: seq<Target>, t: Target)
    requires Sorting.SortedBy(TargetAtMost, before + [t]) && Kept(before, us)
    ensures match Next(us, t) case Some(vs) => Kept(before + [t], vs) case None => !Consistent(Changes(before + [t]))
  {
    var ts := before + [t];
    assert ts[..|ts| - 1] == before;
    if us == [] {
      KeptNew(before, us, t);
    } else if us[|us| - 1].location.dir != t.location.dir {
      NextDirectory(ts, us);
      KeptNew(before, us, t);
    } else if ChangeOf(us[|us| - 1]) == ChangeOf(t) {
      KeptAgain(before, us, t);
    } else {
      Disagreement(ts, |before|, us);
    }
  }

  lemma NextDirectory(ts: seq<Target>, us: seq<Target>)
    requires Sorting.SortedBy(TargetAtMost, ts) && ts != [] && us != [] && Kept(ts[..|ts| - 1], us)
    requires us[|us| - 1].location.dir != ts[|ts| - 1].location.dir
    ensures Less(us[|us| - 1].location.dir, ts[|ts| - 1].location.dir)
  {
    var k := |ts| - 1;
    assert us[0] in us;
    assert ts[..k] != [];
    assert TargetAtMost(ts[k - 1], ts[k]);
  }

  lemma Disagrees(before: seq<Target>, t: Target)
    requires !Consistent(Changes(before))
    ensures !Consistent(Changes(before + [t]))
  {
    var cs, ds := Changes(before), Changes(before + [t]);
    var i, j :| 0 <= i < |cs| && 0 <= j < |cs| && cs[i].dir == cs[j].dir && cs[i] != cs[j];
    assert ds[i] == cs[i] && ds[j] == cs[j];
  }

  /** us is what compaction has kept of the sorted targets ts. */
  ghost predicate Kept(ts: seq<Target>, us: seq<Target>) {
    && Normalized(ts, us)
    && (ts != [] ==> us != [] && us[|us| - 1].location.dir == ts[|ts| - 1].location.dir)
  }

  lemma ChangesSnoc(ts: seq<Target>, t: Target)
    ensures Changes(ts + [t]) == Changes(ts) + [ChangeOf(t)]
    ensures Dirs(Changes(ts + [t])) == Dirs(Changes(ts)) + [t.location.dir]
  {
  }

  lemma KeptAgain(ts: seq<Target>, us: seq<Target>, t: Target)
    requires Kept(ts, us) && us != [] && ChangeOf(us[|us| - 1]) == ChangeOf(t)
    ensures Kept(ts + [t], us)
  {
    ChangesSnoc(ts, t);
    assert Changes(us)[|us| - 1] == ChangeOf(t);
  }

  lemma KeptNew(ts: seq<Target>, us: seq<Target>, t: Target)
    requires Kept(ts, us)
    requires us != [] ==> Less(us[|us| - 1].location.dir, t.location.dir)
    ensures Kept(ts + [t], us + [t])
  {
    ChangesSnoc(ts, t);
    ChangesSnoc(us, t);
    var ds := Dirs(Changes(us));
    forall i | 0 <= i < |ds| ensures Less(ds[i], t.location.dir) {
      if i < |ds| - 1 {
        LessTransitive(ds[i], ds[|ds| - 1], t.location.dir);
      }
    }
  }

  lemma Disagreement(ts: seq<Target>, i: nat, us: seq<Target>)
    requires i < |ts| && us != [] && (forall u :: u in us ==> u in ts[..i])
    requires us[|us| - 1].location.dir == ts[i].location.dir && ChangeOf(us[|us| - 1]) != ChangeOf(ts[i])
    ensures !Consistent(Changes(ts))
  {
    var u := us[|us| - 1];
    assert u in ts[..i];
    var j :| 0 <= j < i && ts[j] == u;
    assert Changes(ts)[j].dir == Changes(ts)[i].dir && Changes(ts)[j] != Changes(ts)[i];
  }

  /** Sorts the targets and compacts them; None is ErrIncompleteRule for rules that
      disagree about a directory. */
  method NormalizeManifestTargets(targets: seq<Target>) returns (r: Option<seq<Target>>)
    ensures r.Some? <==> Consistent(Changes(targets))
    ensures r.Some? ==> Normalized(targets, r.value)
  {
    TargetsOrdered();
    var sorted := Sorting.SortSlice(targets, TargetAtMost);
    Sorting.SameMembers(targets, sorted);
    var a := new Target[|sorted|](i requires 0 <= i < |sorted| => sorted[i]);
    assert a[..] == sorted;
    var n, conflict := Compact(a);
    CompactedIsNormalized(sorted);
    SameChanges(targets, sorted);
    if conflict {
      ConsistentBySet(Changes(sorted), Changes(targets));
      return None;
    }
    NormalizedIsConsistent(targets, a[..n]);
    return Some(a[..n]);
  }

  lemma ConsistentBySet(cs: seq<Change>, ds: seq<Change>)
    requires forall c :: c in cs <==> c in ds
    ensures Consistent(cs) <==> Consistent(ds)
  {
    forall i, j | 0 <= i < |cs| && 0 <= j < |cs| && cs[i].dir == cs[j].dir && Consistent(ds) ensures cs[i] == cs[j] {
      assert cs[i] in ds && cs[j] in ds;
    }
    forall i, j | 0 <= i < |ds| && 0 <= j < |ds| && ds[i].dir == ds[j].dir && Consistent(cs) ensures ds[i] == ds[j] {
      assert ds[i] in cs && ds[j] in cs;
    }
  }

  lemma IncreasingIsConsistent(cs: seq<Change>)
    requires Sorting.Increasing(Dirs(cs))
    ensures Consistent(cs)
  {
    forall i, j | 0 <= i < |cs| && 0 <= j < |cs| && cs[i].dir == cs[j].dir ensures cs[i] == cs[j] {
      if i != j {
        var a, b := if i < j then i else j, if i < j then j else i;
        assert Less(Dirs(cs)[a], Dirs(cs)[b]);
        LessAsymmetric(Dirs(cs)[a], Dirs(cs)[b]);
      }
    }
  }

  /** Only consistent targets can be normalized. */
  lemma NormalizedIsConsistent(ts: seq<Target>, us: seq<Target>)
    requires Normalized(ts, us)
    ensures Consistent(Changes(ts))
  {
    IncreasingIsConsistent(Changes(us));
    ConsistentBySet(Changes(us), Changes(ts));
  }

  /** Whatever the order of the rules and the spelling of the repository, the
      normalized targets make the same changes in the same order. */
  lemma NormalizedIsUnique(ts: seq<Target>, us: seq<Target>, vs: seq<Target>, ws: seq<Target>)
    requires Normalized(ts, us) && Normalized(vs, ws)
    requires forall c :: c in Changes(ts) <==> c in Changes(vs)
    ensures Changes(us) == Changes(ws)
  {
    var cs, ds := Changes(us), Changes(ws);
    SameDirs(cs, ds);
    SameDirs(ds, cs);
    Sorting.IncreasingBySet(Dirs(cs), Dirs(ds));
    forall i | 0 <= i < |cs| ensures cs[i] == ds[i] {
      assert cs[i] in ds;
      var j :| 0 <= j < |ds| && ds[j] == cs[i];
      IncreasingIsConsistent(ds);
      assert Dirs(ds)[i] == Dirs(cs)[i];
    }
  }

  lemma SameDirs(cs: seq<Change>, ds: seq<Change>)
    requires forall c :: c in cs ==> c in ds
    ensures forall d :: d in Dirs(cs) ==> d in Dirs(ds)
  {
    forall d | d in Dirs(cs) ensures d in Dirs(ds) {
      var i :| 0 <= i < |cs| && Dirs(cs)[i] == d;
      assert cs[i] in ds;
      var j :| 0 <= j < |ds| && ds[j] == cs[i];
      assert Dirs(ds)[j] == d;
    }
  }
}
