/** The location template of a rule: expansion, URL and path checks (internal/model/rule.go). */
module ManifestURL {
  import opened Text
  import opened Errors
  import opened Planning

  const RECURSIVE_WILDCARD := "**"
  const SITE := "https://github.com/"

  // ---- splitPath ----

  /** strings.TrimSpace leaves nothing. */
  predicate Blank(s: string) { forall i :: 0 <= i < |s| ==> IsSpace(s[i]) }

  function NonBlank(parts: seq<string>): seq<string> {
    if parts == [] then [] else (if Blank(parts[0]) then [] else [parts[0]]) + NonBlank(parts[1..])
  }

  lemma {:induction false} NonBlankMembers(parts: seq<string>)
    ensures forall i :: 0 <= i < |NonBlank(parts)| ==> NonBlank(parts)[i] in parts && !Blank(NonBlank(parts)[i])
  {
    if parts != [] {
      var rest := NonBlank(parts[1..]);
      NonBlankMembers(parts[1..]);
      forall i | 0 <= i < |NonBlank(parts)| ensures NonBlank(parts)[i] in parts && !Blank(NonBlank(parts)[i]) {
        var j := i - (|NonBlank(parts)| - |rest|);
        assert j >= 0 ==> NonBlank(parts)[i] == rest[j];
      }
    }
  }

  function SplitPath(raw: string): (r: seq<string>)
    ensures forall i :: 0 <= i < |r| ==> Free(r[i], '/') && !Blank(r[i])
  {
    NonBlankMembers(Split(raw, '/'));
    NonBlank(Split(raw, '/'))
  }

  // ---- The checks on the manifest path ----

  predicate IsWild(c: char) { c == '\\' || c == '*' || c == '?' || c == '[' || c == ']' }

  predicate IsDots(segment: string) { segment == "." || segment == ".." }

  predicate Plain(segment: string) { forall i :: 0 <= i < |segment| ==> !IsWild(segment[i]) }

  function Stars(segments: seq<string>): nat {
    if segments == [] then 0
    else Stars(segments[..|segments| - 1]) + if segments[|segments| - 1] == RECURSIVE_WILDCARD then 1 else 0
  }

  /** No segment climbs, wildcards are whole segments and there is at most one. */
  predicate ValidManifestPath(segments: seq<string>) {
    && (forall i :: 0 <= i < |segments| ==> !IsDots(segments[i]))
    && (forall i :: 0 <= i < |segments| ==> segments[i] == RECURSIVE_WILDCARD || Plain(segments[i]))
    && Stars(segments) <= 1
  }

  method ValidateManifestPath(segments: seq<string>) returns (ok: bool)
    ensures ok <==> ValidManifestPath(segments)
  {
    var recursiveWildcards := 0;
    for i := 0 to |segments|
      invariant recursiveWildcards == Stars(segments[..i])
      invariant forall j :: 0 <= j < i ==> !IsDots(segments[j])
      invariant forall j :: 0 <= j < i ==> segments[j] == RECURSIVE_WILDCARD || Plain(segments[j])
    {
      assert segments[..i + 1][..i] == segments[..i];
      var segment := segments[i];
      if segment == "." || segment == ".." {
        return false;
      } else if segment == RECURSIVE_WILDCARD {
        recursiveWildcards := recursiveWildcards + 1;
      } else if !Plain(segment) {
        return false;
      }
    }
    assert segments[..|segments|] == segments;
    ok := recursiveWildcards <= 1;
  }

  // ---- path.Join ----

  /** The elements that path.Clean keeps of segs, behind those it already kept. */
  function Cleaned(segs: seq<string>, rooted: bool, kept: seq<string>): seq<string>
    decreases |segs|
  {
    if segs == [] then kept
    else if segs[0] == "" || segs[0] == "." then Cleaned(segs[1..], rooted, kept)
    else if segs[0] == ".." then
      if kept != [] && kept[|kept| - 1] != ".." then Cleaned(segs[1..], rooted, kept[..|kept| - 1])
      else if rooted then Cleaned(segs[1..], rooted, kept)
      else Cleaned(segs[1..], rooted, kept + [".."])
    else Cleaned(segs[1..], rooted, kept + [segs[0]])
  }

  predicate IsAbs(p: string) { p != "" && p[0] == '/' }

  function Clean(p: string): string {
    var body := Join(Cleaned(Split(p, '/'), IsAbs(p), []), "/");
    if IsAbs(p) then "/" + body else if body == "" then "." else body
  }

  function PathJoin(segs: seq<string>): string {
    if NonEmpty(segs) == [] then "" else Clean(Join(NonEmpty(segs), "/"))
  }

  predicate Escapes(dir: string) { IsAbs(dir) || dir == ".." || "../" <= dir }

  /** A segment that names an entry of a directory. */
  predicate IsEntry(segment: string) { segment != "" && Free(segment, '/') && !IsDots(segment) }

  lemma {:induction false} AllNonEmpty(segs: seq<string>)
    requires forall i :: 0 <= i < |segs| ==> segs[i] != ""
    ensures NonEmpty(segs) == segs
  {
    if segs != [] {
      AllNonEmpty(segs[1..]);
      assert segs == [segs[0]] + segs[1..];
    }
  }

  lemma {:induction false} CleanedKeeps(segs: seq<string>, kept: seq<string>)
    requires forall i :: 0 <= i < |segs| ==> IsEntry(segs[i])
    ensures Cleaned(segs, false, kept) == kept + segs
    decreases |segs|
  {
    if segs != [] {
      assert IsEntry(segs[0]);
      CleanedKeeps(segs[1..], kept + [segs[0]]);
      assert kept + [segs[0]] + segs[1..] == kept + segs;
    } else {
      assert kept + segs == kept;
    }
  }

  predicate AllEntries(segs: seq<string>) { forall i :: 0 <= i < |segs| ==> IsEntry(segs[i]) }

  lemma SplitEntries(segs: seq<string>)
    requires AllEntries(segs) && segs != []
    ensures Split(Join(segs, "/"), '/') == segs
  {
    forall i | 0 <= i < |segs| ensures Free(segs[i], '/') {
      assert IsEntry(segs[i]);
    }
    SplitJoin(segs, '/');
  }

  lemma SplitHead(dir: string)
    requires "../" <= dir
    ensures Split(dir, '/')[0] == ".."
  {
    assert dir == ".." + ['/'] + dir[3..];
    SplitPrefix("..", dir[3..], '/');
  }

  lemma NotEscaping(dir: string)
    requires dir != "" && dir[0] != '/' && Split(dir, '/')[0] != ".."
    ensures !Escapes(dir)
  {
    if "../" <= dir {
      SplitHead(dir);
    }
    if dir == ".." {
      SplitFree(dir, '/');
    }
  }

  /** How many directories below its start a path leads, each ".." leading one up. */
  function Level(segs: seq<string>): int {
    if segs == [] then 0
    else (if segs[0] == "" || segs[0] == "." then 0 else if segs[0] == ".." then -1 else 1) + Level(segs[1..])
  }

  ghost predicate Climbs(segs: seq<string>, depth: int) {
    exists k :: 0 <= k <= |segs| && depth + Level(segs[..k]) < 0
  }

  lemma ClimbsNext(segs: seq<string>, depth: int)
    requires segs != [] && depth >= 0
    ensures Climbs(segs, depth) <==> Climbs(segs[1..], depth + Level(segs[..1]))
  {
    assert segs[..1][0] == segs[0] && segs[..1][1..] == [];
    if k :| 0 <= k <= |segs| && depth + Level(segs[..k]) < 0 {
      assert k > 0;
      assert segs[..k][0] == segs[0] && segs[..k][1..] == segs[1..][..k - 1];
    }
    if k :| 0 <= k <= |segs[1..]| && depth + Level(segs[..1]) + Level(segs[1..][..k]) < 0 {
      assert segs[..k + 1][0] == segs[0] && segs[..k + 1][1..] == segs[1..][..k];
    }
  }

  /** What path.Clean keeps starts with ".." exactly when the path climbs above its start. */
  lemma {:induction false} CleanedClimbs(segs: seq<string>, kept: seq<string>)
    requires forall i :: 0 <= i < |segs| ==> Free(segs[i], '/')
    requires forall i :: 0 <= i < |kept| ==> kept[i] != "" && Free(kept[i], '/')
    requires kept != [] && kept[0] != ".." ==> forall i :: 0 <= i < |kept| ==> kept[i] != ".."
    ensures var r := Cleaned(segs, false, kept);
            && (forall i :: 0 <= i < |r| ==> r[i] != "" && Free(r[i], '/'))
            && (kept != [] && kept[0] == ".." ==> r != [] && r[0] == "..")
            && (kept == [] || kept[0] != ".." ==> (r != [] && r[0] == ".." <==> Climbs(segs, |kept|)))
    decreases |segs|
  {
    if segs == [] {
      assert segs[..0] == [];
      assert forall k :: 0 <= k <= |segs| ==> segs[..k] == [];
    } else {
      ClimbsNext(segs, |kept|);
      assert segs[..1][0] == segs[0] && segs[..1][1..] == [];
      if segs[0] == "" || segs[0] == "." {
        CleanedClimbs(segs[1..], kept);
      } else if segs[0] != ".." {
        CleanedClimbs(segs[1..], kept + [segs[0]]);
      } else if kept != [] && kept[|kept| - 1] != ".." {
        KeptStarts(kept);
        CleanedClimbs(segs[1..], kept[..|kept| - 1]);
      } else {
        assert kept == [] || kept[0] == "..";
        CleanedClimbs(segs[1..], kept + [".."]);
        if kept == [] {
          assert segs[1..][..0] == [];
          assert -1 + Level(segs[1..][..0]) < 0;
        }
      }
    }
  }

  lemma KeptStarts(kept: seq<string>)
    requires kept != [] && kept[|kept| - 1] != ".."
    ensures kept[0] == ".." ==> |kept| > 1 && kept[..|kept| - 1][0] == ".."
  {
  }

  /** A relative path is taken for one that escapes exactly when, read from the left, it
      climbs above where it starts. */
  lemma EscapesExactly(p: string)
    requires !IsAbs(p)
    ensures Escapes(Clean(p)) <==> Climbs(Split(p, '/'), 0)
  {
    var r := Cleaned(Split(p, '/'), false, []);
    CleanedClimbs(Split(p, '/'), []);
    if r != [] {
      SplitJoin(r, '/');
      JoinEnds(r, "/");
      if r[0] != ".." {
        NotEscaping(Join(r, "/"));
      } else if |r| > 1 {
        assert Join(r, "/")[..3] == "../";
      }
    }
  }

  lemma CleanEntries(segs: seq<string>)
    requires AllEntries(segs) && segs != []
    ensures Clean(Join(segs, "/")) == Join(segs, "/") && !Escapes(Join(segs, "/"))
  {
    assert IsEntry(segs[0]);
    SplitEntries(segs);
    CleanedKeeps(segs, []);
    assert [] + segs == segs;
    NotEscaping(Join(segs, "/"));
  }

  /** Joining entries is writing a slash between them, and never leaves the directory
      it starts from. */
  lemma JoinedEntriesStayBelow(segs: seq<string>)
    requires AllEntries(segs)
    ensures PathJoin(segs) == Join(segs, "/") && !Escapes(PathJoin(segs))
  {
    forall i | 0 <= i < |segs| ensures segs[i] != "" {
      assert IsEntry(segs[i]);
    }
    AllNonEmpty(segs);
    if segs != [] {
      CleanEntries(segs);
    }
  }

  // ---- parseManifestURL ----

  /** What url.Parse reads, with the path decoded. */
  datatype URL = URL(scheme: string, host: string, hasUser: bool, query: string, fragment: string, path: string)

  predicate OnSite(u: URL) {
    u.scheme == "https" && u.host == "github.com" && !u.hasUser && u.query == "" && u.fragment == ""
  }

  function LocationOf(segments: seq<string>): Location
    requires |segments| >= 2
  {
    Location(SITE + segments[0] + "/" + segments[1], segments[0], segments[1], Join(segments[2..], "/"))
  }

  /** What the URL must satisfy to name a manifest directory of a repository. */
  predicate Usable(parsed: Option<URL>) {
    && parsed.Some? && OnSite(parsed.value)
    && var segments := SplitPath(parsed.value.path); |segments| >= 2 && ValidManifestPath(segments[2..])
  }

  /** For whatever path the URL decodes to: the check for an escape that follows the
      segment checks never refuses, and the directory is the checked segments. */
  method ParseManifestURL(parse: string -> Option<URL>, raw: string) returns (r: Result<Location, Error>)
    ensures r.Ok? <==> Usable(parse(raw))
    ensures r.Ok? ==> r.value == LocationOf(SplitPath(parse(raw).value.path))
    ensures r.Err? ==> r.error == {IncompleteRule}
  {
    var parsed := parse(raw);
    if parsed.None? || !OnSite(parsed.value) {
      return Err({IncompleteRule});
    }
    var segments := SplitPath(parsed.value.path);
    if |segments| < 2 {
      return Err({IncompleteRule});
    }
    var manifestSegments := segments[2..];
    var valid := ValidateManifestPath(manifestSegments);
    if !valid {
      return Err({IncompleteRule});
    }
    var dir := PathJoin(manifestSegments);
    assert PathJoin(manifestSegments) == Join(manifestSegments, "/") && !Escapes(dir) by {
      forall i | 0 <= i < |manifestSegments| ensures IsEntry(manifestSegments[i]) {
        assert manifestSegments[i] == segments[i + 2];
      }
      JoinedEntriesStayBelow(manifestSegments);
    }
    if Escapes(dir) {
      return Err({IncompleteRule});
    }
    r := Ok(Location(SITE + segments[0] + "/" + segments[1], segments[0], segments[1], dir));
  }
}
