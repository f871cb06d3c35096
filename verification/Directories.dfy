/** Finding the manifest directories of a pattern in a checkout:
    Resolve of internal/infrastructure/manifest/kustomize/patcher.go. */
module Directories {
  import opened Text
  import opened Errors
  import opened ManifestURL
  import Sorting

  const FILE_NAME := "kustomization.yaml"
  const GIT := ".git"

  // ---- A directory tree ----

  datatype Entry = Dir(children: seq<Child>) | Regular | Symlink | Other
  datatype Child = Child(name: string, entry: Entry)

  function Named(children: seq<Child>, name: string): Option<Entry> {
    if children == [] then None
    else if children[0].name == name then Some(children[0].entry)
    else Named(children[1..], name)
  }

  /** What stands at path below e, without following a symbolic link. */
  function Find(e: Entry, path: seq<string>): Option<Entry>
    decreases |path|
  {
    if path == [] then Some(e)
    else if !e.Dir? then None
    else
      match Named(e.children, path[0])
      case None => None
      case Some(child) => Find(child, path[1..])
  }

  /** Names of one directory are distinct, and are names. */
  ghost predicate Proper(e: Entry) {
    e.Dir? ==>
      && (forall i, j :: 0 <= i < j < |e.children| ==> e.children[i].name != e.children[j].name)
      && forall i :: 0 <= i < |e.children| ==> IsEntry(e.children[i].name) && Proper(e.children[i].entry)
  }

  lemma {:induction false} NamedAt(children: seq<Child>, i: nat)
    requires i < |children| && forall i, j :: 0 <= i < j < |children| ==> children[i].name != children[j].name
    ensures Named(children, children[i].name) == Some(children[i].entry)
  {
    if i > 0 {
      NamedAt(children[1..], i - 1);
    }
  }

  lemma {:induction false} NamedIsThere(children: seq<Child>, name: string) returns (i: nat)
    requires Named(children, name).Some?
    ensures i < |children| && children[i].name == name && Named(children, name) == Some(children[i].entry)
  {
    if children[0].name == name {
      i := 0;
    } else {
      i := NamedIsThere(children[1..], name);
      i := i + 1;
    }
  }

  // ---- rejectSymlinkPath ----

  /** Nothing: the path may be used. An error without a sentinel: a component is a file. */
  function SymlinkCheck(e: Entry, path: seq<string>): Option<Error>
    decreases |path|
  {
    if path == [] then None
    else if !e.Dir? then Some({})
    else
      match Named(e.children, path[0])
      case None => None
      case Some(child) => if child.Symlink? then Some({InvalidManifest}) else SymlinkCheck(child, path[1..])
  }

  predicate LinkAt(e: Entry, path: seq<string>, i: nat)
    requires i < |path|
  {
    Find(e, path[..i + 1]) == Some(Symlink)
  }

  lemma LinkBelow(e: Entry, path: seq<string>, i: nat)
    requires i < |path| && e.Dir? && Named(e.children, path[0]).Some?
    ensures LinkAt(e, path, i) <==>
            if i == 0 then Named(e.children, path[0]).value.Symlink?
              else LinkAt(Named(e.children, path[0]).value, path[1..], i - 1)
  {
    var child, first := Named(e.children, path[0]).value, path[..i + 1];
    assert first[0] == path[0] && first[1..] == path[1..][..i];
    assert Find(e, first) == Find(child, path[1..][..i]);
  }

  /** The check calls a path invalid exactly when one of its components is a symbolic link,
      and accepts whatever is reached through directories only. */
  lemma {:induction false} SymlinkCheckFinds(e: Entry, path: seq<string>)
    ensures SymlinkCheck(e, path) == Some({InvalidManifest}) <==> exists i :: 0 <= i < |path| && LinkAt(e, path, i)
    ensures Find(e, path).Some? && !Find(e, path).value.Symlink? ==> SymlinkCheck(e, path) == None
    decreases |path|
  {
    if path != [] && e.Dir? && Named(e.children, path[0]).Some? {
      var child, rest := Named(e.children, path[0]).value, path[1..];
      LinkBelow(e, path, 0);
      if !child.Symlink? {
        SymlinkCheckFinds(child, rest);
        forall i | 0 < i < |path| ensures LinkAt(e, path, i) <==> LinkAt(child, rest, i - 1) {
          LinkBelow(e, path, i);
        }
        if i :| 0 <= i < |rest| && LinkAt(child, rest, i) {
          assert LinkAt(e, path, i + 1);
        }
      } else {
        assert Find(child, rest) == if rest == [] then Some(child) else None;
      }
    }
  }

  function SplitManifestPath(value: string): seq<string> {
    var trimmed := TrimSlashes(value);
    if trimmed == "" || trimmed == "." then [] else Split(trimmed, '/')
  }

  lemma {:induction false} JoinEnd(segs: seq<string>)
    requires segs != [] && AllEntries(segs)
    ensures Join(segs, "/") != "" && Join(segs, "/")[|Join(segs, "/")| - 1] != '/'
  {
    var last := segs[|segs| - 1];
    assert IsEntry(last) && last[|last| - 1] != '/';
    if |segs| > 1 {
      assert AllEntries(segs[1..]);
      JoinEnd(segs[1..]);
    }
  }

  /** The segments of a directory are recovered from its text. */
  lemma SegmentsComeBack(d: seq<string>)
    requires AllEntries(d)
    ensures SplitManifestPath(Join(d, "/")) == d
  {
    if d != [] {
      var text := Join(d, "/");
      assert IsEntry(d[0]);
      JoinEnd(d);
      UntrimmedStays(text);
      SplitEntries(d);
    }
  }

  /** A path is refused when it is absolute, when it climbs out of the checkout, and as
      the components of its clean form say. */
  function PathCheck(root: Entry, relative: string): Option<Error> {
    if IsAbs(relative) || Escapes(Clean(relative)) then Some({InvalidManifest})
    else SymlinkCheck(root, SplitManifestPath(Clean(relative)))
  }

  /** Nothing is cleaned off the text of a path of entries. */
  lemma EntriesAreClean(d: seq<string>)
    requires AllEntries(d)
    ensures !IsAbs(Join(d, "/")) && !Escapes(Clean(Join(d, "/")))
    ensures SplitManifestPath(Clean(Join(d, "/"))) == d
  {
    if d == [] {
      assert Split("", '/') == [""];
    } else {
      CleanEntries(d);
      SegmentsComeBack(d);
    }
  }

  /** Of a path of entries, exactly its components decide. */
  lemma EntriesAreChecked(root: Entry, d: seq<string>)
    requires AllEntries(d)
    ensures PathCheck(root, Join(d, "/")) == SymlinkCheck(root, d)
  {
    EntriesAreClean(d);
  }

  method RejectSymlinkPath(root: Entry, relative: string) returns (r: Option<Error>)
    ensures r == PathCheck(root, relative)
  {
    if IsAbs(relative) {
      return Some({InvalidManifest});
    }
    var cleaned := Clean(relative);
    if Escapes(cleaned) {
      return Some({InvalidManifest});
    }
    r := RejectSymlink(root, SplitManifestPath(cleaned));
  }

  method RejectSymlink(root: Entry, segments: seq<string>) returns (r: Option<Error>)
    ensures r == SymlinkCheck(root, segments)
  {
    var current := root;
    for i := 0 to |segments|
      invariant SymlinkCheck(root, segments) == SymlinkCheck(current, segments[i..])
    {
      assert segments[i..][0] == segments[i] && segments[i..][1..] == segments[i + 1..];
      if !current.Dir? {
        return Some({});
      }
      var info := Named(current.children, segments[i]);
      if info.None? {
        return None;
      }
      if info.value.Symlink? {
        return Some({InvalidManifest});
      }
      current := info.value;
    }
    r := None;
  }

  // ---- matchesRecursiveManifestPath ----

  /** candidate is the pattern with its wildcard, at index w, replaced by any segments. */
  ghost predicate Glob(pattern: seq<string>, candidate: seq<string>, w: nat)
    requires w < |pattern|
  {
    exists middle: seq<string> :: candidate == pattern[..w] + middle + pattern[w + 1..]
  }

  method MatchesRecursiveManifestPath(pattern: seq<string>, candidate: seq<string>, wildcard: nat) returns (ok: bool)
    requires wildcard < |pattern|
    ensures ok <==> Glob(pattern, candidate, wildcard)
  {
    var fixedSegments := |pattern| - 1;
    if |candidate| < fixedSegments {
      return false;
    }
    for i := 0 to wildcard
      invariant forall j :: 0 <= j < i ==> pattern[j] == candidate[j]
    {
      if pattern[i] != candidate[i] {
        return false;
      }
    }
    var suffixLength := |pattern| - wildcard - 1;
    ghost var shift := |candidate| - |pattern|;
    for i := 1 to suffixLength + 1
      invariant forall j :: |pattern| - i < j < |pattern| ==> pattern[j] == candidate[j + shift]
    {
      if pattern[|pattern| - i] != candidate[|candidate| - i] {
        return false;
      }
    }
    GlobOfEnds(pattern, candidate, wildcard);
    ok := true;
  }

  lemma GlobOfEnds(pattern: seq<string>, candidate: seq<string>, w: nat)
    requires w < |pattern| <= |candidate| + 1
    requires forall j :: 0 <= j < w ==> pattern[j] == candidate[j]
    requires forall j :: w < j < |pattern| ==> pattern[j] == candidate[j + (|candidate| - |pattern|)]
    ensures Glob(pattern, candidate, w)
  {
    var end := w + 1 + (|candidate| - |pattern|);
    var middle := candidate[w..end];
    assert candidate == pattern[..w] + middle + pattern[w + 1..];
  }

  // ---- Walking the tree ----

  lemma {:induction false} FindAppend(e: Entry, p: seq<string>, q: seq<string>)
    ensures Find(e, p + q) == match Find(e, p) case None => None case Some(d) => Find(d, q)
    decreases |p|
  {
    if p == [] {
      assert p + q == q;
    } else {
      assert (p + q)[0] == p[0] && (p + q)[1..] == p[1..] + q;
      if e.Dir? && Named(e.children, p[0]).Some? {
        FindAppend(Named(e.children, p[0]).value, p[1..], q);
      }
    }
  }

  /** The file of directory d is the entry e, at the path at, or stands below it, and no
      directory in between, nor e itself, is named .git. */
  ghost predicate Visited(e: Entry, at: seq<string>, d: seq<string>) {
    && at <= d + [FILE_NAME]
    && Find(e, (d + [FILE_NAME])[|at|..]) == Some(Regular)
    && GIT !in (d + [FILE_NAME])[|at|..]
    && (at == [] || at[|at| - 1] != GIT)
  }

  ghost predicate VisitedIn(children: seq<Child>, k: nat, at: seq<string>, d: seq<string>)
    requires k <= |children|
  {
    exists i :: 0 <= i < k && Visited(children[i].entry, at + [children[i].name], d)
  }

  lemma VisitedDown(e: Entry, at: seq<string>, d: seq<string>)
    requires e.Dir? && Visited(e, at, d)
    ensures VisitedIn(e.children, |e.children|, at, d)
  {
    var rel := (d + [FILE_NAME])[|at|..];
    var i := NamedIsThere(e.children, rel[0]);
    var next := at + [e.children[i].name];
    assert (d + [FILE_NAME])[|next|..] == rel[1..];
    assert d + [FILE_NAME] == at + rel && rel == [rel[0]] + rel[1..];
    assert Visited(e.children[i].entry, next, d);
  }

  lemma VisitedUp(e: Entry, at: seq<string>, d: seq<string>, i: nat)
    requires e.Dir? && Proper(e) && i < |e.children| && Visited(e.children[i].entry, at + [e.children[i].name], d)
    requires at == [] || at[|at| - 1] != GIT
    ensures Visited(e, at, d)
  {
    var full, next := d + [FILE_NAME], at + [e.children[i].name];
    assert full == next + full[|next|..];
    var rel := full[|at|..];
    assert rel == [e.children[i].name] + full[|next|..];
    assert next[|next| - 1] == e.children[i].name;
    NamedAt(e.children, i);
    assert rel[1..] == full[|next|..];
  }

  lemma VisitedSplits(e: Entry, at: seq<string>, d: seq<string>)
    requires e.Dir? && Proper(e) && (at == [] || at[|at| - 1] != GIT)
    ensures Visited(e, at, d) <==> VisitedIn(e.children, |e.children|, at, d)
  {
    if Visited(e, at, d) {
      VisitedDown(e, at, d);
    }
    if i :| 0 <= i < |e.children| && Visited(e.children[i].entry, at + [e.children[i].name], d) {
      VisitedUp(e, at, d, i);
    }
  }

  ghost predicate Distinct<T>(xs: seq<T>) { forall i, j :: 0 <= i < j < |xs| ==> xs[i] != xs[j] }

  lemma DistinctAppend<T>(xs: seq<T>, ys: seq<T>)
    requires Distinct(xs) && Distinct(ys) && forall x :: x in xs ==> x !in ys
    ensures Distinct(xs + ys)
  {
    var zs := xs + ys;
    forall i, j | 0 <= i < j < |zs| ensures zs[i] != zs[j] {
      assert zs[i] in (if i < |xs| then xs else ys) && zs[j] in (if j < |xs| then xs else ys);
    }
  }

  lemma WalkedToIsNoLink(root: Entry, at: seq<string>)
    requires at != [] && Find(root, at).Some?
    requires Proper(root)
    ensures PathCheck(root, Join(at[..|at| - 1], "/")) == None
  {
    var d, last := at[..|at| - 1], [at[|at| - 1]];
    assert at == d + last;
    FindAppend(root, d, last);
    FoundAreEntries(root, d);
    EntriesAreChecked(root, d);
    SymlinkCheckFinds(root, d);
  }

  /** The directory of a file that the walk comes to. The symlink check on a directory
      that was walked to never refuses. */
  method WalkFile(root: Entry, e: Entry, at: seq<string>, segments: seq<string>, wildcard: nat)
    returns (ds: seq<seq<string>>)
    requires wildcard < |segments| && Proper(root) && !e.Dir? && at != [] && Find(root, at) == Some(e)
    ensures forall d :: d in ds <==> Visited(e, at, d) && Glob(segments, d, wildcard)
    ensures |ds| <= 1
  {
    ds := [];
    var directory := at[..|at| - 1];
    assert forall d :: Visited(e, at, d) <==> e.Regular? && at[|at| - 1] == FILE_NAME && d == directory;
    if at[|at| - 1] != FILE_NAME || !e.Regular? {
      return;
    }
    var matches := MatchesRecursiveManifestPath(segments, directory, wildcard);
    if matches {
      var check := RejectSymlinkPath(root, Join(directory, "/"));
      WalkedToIsNoLink(root, at);
      assert check.None?;
      ds := [directory];
    }
  }

  /** filepath.WalkDir from the entry e at the path at. */
  method Walk(root: Entry, e: Entry, at: seq<string>, segments: seq<string>, wildcard: nat)
    returns (ds: seq<seq<string>>)
    requires wildcard < |segments| && Proper(root) && Proper(e) && Find(root, at) == Some(e) && (at == [] ==> e.Dir?)
    ensures forall d :: d in ds <==> Visited(e, at, d) && Glob(segments, d, wildcard)
    ensures Distinct(ds)
    decreases e
  {
    if !e.Dir? {
      ds := WalkFile(root, e, at, segments, wildcard);
      return;
    }
    ds := [];
    if at != [] && at[|at| - 1] == GIT {
      return;
    }
    for i := 0 to |e.children|
      invariant forall d :: d in ds <==> VisitedIn(e.children, i, at, d) && Glob(segments, d, wildcard)
      invariant Distinct(ds)
    {
      var child := e.children[i];
      FindChild(root, e, at, i);
      var found := Walk(root, child.entry, at + [child.name], segments, wildcard);
      assert forall d :: d in ds ==> d !in found;
      DistinctAppend(ds, found);
      ds := ds + found;
    }
    forall d ensures Visited(e, at, d) <==> VisitedIn(e.children, |e.children|, at, d) {
      VisitedSplits(e, at, d);
    }
  }

  lemma FindChild(root: Entry, e: Entry, at: seq<string>, i: nat)
    requires e.Dir? && Proper(e) && Find(root, at) == Some(e) && i < |e.children|
    ensures Find(root, at + [e.children[i].name]) == Some(e.children[i].entry)
  {
    var name := e.children[i].name;
    FindAppend(root, at, [name]);
    NamedAt(e.children, i);
    assert [name][1..] == [];
  }

  // ---- Resolve ----

  /** d matches the pattern and holds a regular kustomization.yaml; the directories of d
      from the walk's root on are not named .git. */
  ghost predicate Selected(root: Entry, segments: seq<string>, w: nat, d: seq<string>)
    requires w < |segments|
  {
    && Find(root, d + [FILE_NAME]) == Some(Regular)
    && Glob(segments, d, w)
    && GIT !in d[(if 0 < w <= |d| then w - 1 else 0)..]
  }

  lemma SelectedHasNoLink(root: Entry, segments: seq<string>, w: nat, d: seq<string>, i: nat)
    requires w < |segments| && Selected(root, segments, w, d) && i <= |d|
    ensures !LinkAt(root, d + [FILE_NAME], i)
  {
    SymlinkCheckFinds(root, d + [FILE_NAME]);
  }

  /** The index of the first wildcard segment, or the number of segments. */
  function FirstWildcard(segments: seq<string>): (w: nat)
    ensures w <= |segments|
    ensures w < |segments| ==> segments[w] == RECURSIVE_WILDCARD
    ensures forall i :: 0 <= i < w ==> segments[i] != RECURSIVE_WILDCARD
  {
    if segments == [] || segments[0] == RECURSIVE_WILDCARD then 0 else 1 + FirstWildcard(segments[1..])
  }

  /** Starting at the fixed prefix misses nothing. */
  lemma SelectedIsVisited(root: Entry, segments: seq<string>, w: nat, d: seq<string>)
    requires w < |segments| && Glob(segments, d, w)
    ensures Selected(root, segments, w, d) <==>
            match Find(root, segments[..w]) case None => false case Some(e) => Visited(e, segments[..w], d)
  {
    var at, full := segments[..w], d + [FILE_NAME];
    assert full == at + full[w..];
    FindAppend(root, at, full[w..]);
    assert full[w..] == d[w..] + [FILE_NAME];
    if w > 0 {
      assert d[w - 1..] == [at[w - 1]] + d[w..];
    }
  }

  lemma {:induction false} FoundAreEntries(e: Entry, path: seq<string>)
    requires Proper(e) && Find(e, path).Some?
    ensures AllEntries(path) && Proper(Find(e, path).value)
    decreases |path|
  {
    if path != [] {
      var i := NamedIsThere(e.children, path[0]);
      FoundAreEntries(e.children[i].entry, path[1..]);
      assert path == [path[0]] + path[1..];
    }
  }

  function Texts(ds: seq<seq<string>>): (r: seq<string>)
    ensures |r| == |ds| && forall i :: 0 <= i < |ds| ==> r[i] == Join(ds[i], "/")
  {
    seq(|ds|, i requires 0 <= i < |ds| => Join(ds[i], "/"))
  }

  lemma TextsDistinct(ds: seq<seq<string>>)
    requires Distinct(ds) && forall d :: d in ds ==> AllEntries(d)
    ensures Distinct(Texts(ds))
    ensures forall d :: AllEntries(d) ==> (Join(d, "/") in Texts(ds) <==> d in ds)
    ensures forall s :: s in Texts(ds) ==> SplitManifestPath(s) in ds && Join(SplitManifestPath(s), "/") == s
  {
    var ts := Texts(ds);
    forall i | 0 <= i < |ds| ensures SplitManifestPath(ts[i]) == ds[i] {
      SegmentsComeBack(ds[i]);
    }
    forall i, j | 0 <= i < j < |ts| ensures ts[i] != ts[j] {
      assert ds[i] != ds[j];
    }
    forall d | AllEntries(d) ensures Join(d, "/") in ts <==> d in ds {
      SegmentsComeBack(d);
      if d in ds {
        var i :| 0 <= i < |ds| && ds[i] == d;
        assert ts[i] == Join(d, "/");
      }
    }
  }

  /** dirs are the selected directories, sorted and without repeats. */
  ghost predicate Resolved(root: Entry, segments: seq<string>, w: nat, dirs: seq<string>)
    requires w < |segments|
  {
    && Sorting.Increasing(dirs)
    && (forall d :: Selected(root, segments, w, d) ==> Join(d, "/") in dirs)
    && forall s :: s in dirs ==>
         Selected(root, segments, w, SplitManifestPath(s)) && Join(SplitManifestPath(s), "/") == s
  }

  method FindWildcard(segments: seq<string>) returns (w: int)
    ensures w == if FirstWildcard(segments) < |segments| then FirstWildcard(segments) else -1
  {
    for i := 0 to |segments|
      invariant FirstWildcard(segments) == i + FirstWildcard(segments[i..])
    {
      assert segments[i..][0] == segments[i] && segments[i..][1..] == segments[i + 1..];
      if segments[i] == RECURSIVE_WILDCARD {
        return i;
      }
    }
    w := -1;
  }

  lemma VisitedAreSelected(root: Entry, segments: seq<string>, w: nat, at: seq<string>, ds: seq<seq<string>>)
    requires w < |segments| && Proper(root) && Find(root, at).Some?
    requires AllEntries(segments[..w]) ==> at == segments[..w]
    requires forall d :: d in ds <==> Visited(Find(root, at).value, at, d) && Glob(segments, d, w)
    ensures forall d :: d in ds <==> Selected(root, segments, w, d)
    ensures forall d :: d in ds ==> AllEntries(d)
  {
    forall d ensures d in ds <==> Selected(root, segments, w, d) {
      if AllEntries(segments[..w]) {
        if Glob(segments, d, w) {
          SelectedIsVisited(root, segments, w, d);
        }
      } else {
        if Visited(Find(root, at).value, at, d) {
          FileIsFound(root, at, d);
          NothingMatches(root, segments, w, d);
        }
        NothingUnclean(root, segments, w, d);
      }
    }
    forall d | d in ds ensures AllEntries(d) {
      SelectedAreEntries(root, segments, w, d);
    }
  }

  lemma FileIsFound(root: Entry, at: seq<string>, d: seq<string>)
    requires Find(root, at).Some? && Visited(Find(root, at).value, at, d)
    ensures Find(root, d + [FILE_NAME]) == Some(Regular)
  {
    var full := d + [FILE_NAME];
    assert full == at + full[|at|..];
    FindAppend(root, at, full[|at|..]);
  }

  /** A pattern with a segment to clean in front of its wildcard matches no directory. */
  lemma NothingMatches(root: Entry, segments: seq<string>, w: nat, d: seq<string>)
    requires w < |segments| && Proper(root) && !AllEntries(segments[..w])
    requires Find(root, d + [FILE_NAME]).Some?
    ensures !Glob(segments, d, w)
  {
    FindAppend(root, d, [FILE_NAME]);
    FoundAreEntries(root, d);
    if Glob(segments, d, w) {
      GlobStarts(segments, d, w);
      assert false;
    }
  }

  lemma GlobStarts(pattern: seq<string>, candidate: seq<string>, w: nat)
    requires w < |pattern| && Glob(pattern, candidate, w)
    ensures w <= |candidate| && forall i :: 0 <= i < w ==> pattern[..w][i] == candidate[i]
  {
  }

  lemma NothingUnclean(root: Entry, segments: seq<string>, w: nat, d: seq<string>)
    requires w < |segments| && Proper(root) && !AllEntries(segments[..w])
    ensures !Selected(root, segments, w, d)
  {
    if Selected(root, segments, w, d) {
      NothingMatches(root, segments, w, d);
    }
  }

  lemma SelectedAreEntries(root: Entry, segments: seq<string>, w: nat, d: seq<string>)
    requires w < |segments| && Proper(root) && Selected(root, segments, w, d)
    ensures AllEntries(d)
  {
    FindAppend(root, d, [FILE_NAME]);
    FoundAreEntries(root, d);
  }

  lemma NothingSelected(root: Entry, segments: seq<string>, w: nat, at: seq<string>)
    requires w < |segments| && Proper(root) && Find(root, at) == None
    requires AllEntries(segments[..w]) ==> at == segments[..w]
    ensures forall d :: !Selected(root, segments, w, d)
  {
    forall d ensures !Selected(root, segments, w, d) {
      if !AllEntries(segments[..w]) {
        NothingUnclean(root, segments, w, d);
      } else if Glob(segments, d, w) {
        SelectedIsVisited(root, segments, w, d);
      }
    }
  }

  /** Sorts and prints the directories found. */
  method Printed(root: Entry, segments: seq<string>, w: nat, ds: seq<seq<string>>) returns (dirs: seq<string>)
    requires w < |segments| && ds != [] && Distinct(ds)
    requires forall d :: d in ds <==> Selected(root, segments, w, d)
    requires forall d :: d in ds ==> AllEntries(d)
    ensures dirs != [] && Resolved(root, segments, w, dirs)
  {
    TextsDistinct(ds);
    dirs := Sorting.SortStrings(Texts(ds));
    assert Join(ds[0], "/") in Texts(ds);
    forall d | Selected(root, segments, w, d) ensures Join(d, "/") in dirs {
      assert d in ds && AllEntries(d);
    }
  }

  /** The part of the pattern whose components are checked before anything is read: all of
      a literal one, the prefix in front of the wildcard otherwise. */
  function FixedPart(pattern: string): string {
    var segments := SplitManifestPath(pattern);
    var w := FirstWildcard(segments);
    if w == |segments| then pattern else Join(segments[..w], "/")
  }

  method ResolveWildcard(root: Entry, segments: seq<string>, w: nat) returns (r: Result<seq<string>, Error>)
    requires root.Dir? && Proper(root) && w < |segments|
    ensures var check := PathCheck(root, Join(segments[..w], "/"));
            if check.Some? then r == Err(check.value)
            else if r.Ok? then r.value != [] && Resolved(root, segments, w, r.value)
            else r.error == {ManifestNotFound} && forall d :: !Selected(root, segments, w, d)
  {
    var prefix := Join(segments[..w], "/");
    var check := RejectSymlinkPath(root, prefix);
    if check.Some? {
      return Err(check.value);
    }
    var at := SplitManifestPath(Clean(prefix));
    if AllEntries(segments[..w]) {
      EntriesAreClean(segments[..w]);
    }
    var walkRoot := Find(root, at);
    if walkRoot.None? {
      NothingSelected(root, segments, w, at);
      return Err({ManifestNotFound});
    }
    FoundAreEntries(root, at);
    var ds := Walk(root, walkRoot.value, at, segments, w);
    VisitedAreSelected(root, segments, w, at, ds);
    if ds == [] {
      return Err({ManifestNotFound});
    }
    var dirs := Printed(root, segments, w, ds);
    r := Ok(dirs);
  }

  /** A literal path is returned as it is written; a wildcard gives every directory it
      selects, and fails if there is none. */
  method Resolve(root: Entry, pattern: string) returns (r: Result<seq<string>, Error>)
    requires root.Dir? && Proper(root)
    ensures var segments := SplitManifestPath(pattern);
            var w := FirstWildcard(segments);
            match PathCheck(root, FixedPart(pattern))
            case Some(e) => r == Err(e)
            case None =>
              if w == |segments| then r == Ok([pattern])
              else if r.Ok? then r.value != [] && Resolved(root, segments, w, r.value)
              else r.error == {ManifestNotFound} && forall d :: !Selected(root, segments, w, d)
  {
    var segments := SplitManifestPath(pattern);
    var wildcard := FindWildcard(segments);
    if wildcard < 0 {
      var check := RejectSymlinkPath(root, pattern);
      return if check.Some? then Err(check.value) else Ok([pattern]);
    }
    r := ResolveWildcard(root, segments, wildcard);
  }
}
