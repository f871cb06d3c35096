/** Commits and their history, and what git answers to a push that is not forced. */
module Git {
  import opened Text

  /** The rewritten files of a commit, by directory. */
  type Files = map<string, string>

  /** A commit is what its hash is made of: its parents, its contents and the time it was made. */
  datatype Commit = Commit(parents: seq<Commit>, files: Files, stamp: nat)

  /** a is b, or b goes back to it. */
  predicate IsAncestor(a: Commit, b: Commit)
    decreases b
  {
    a == b || exists i :: 0 <= i < |b.parents| && IsAncestor(a, b.parents[i])
  }

  /** How far a commit goes back. */
  function Depth(c: Commit): nat
    decreases c
  {
    1 + Deepest(c.parents)
  }

  function Deepest(cs: seq<Commit>): nat
    decreases cs
  {
    if cs == [] then 0
    else
      var rest := Deepest(cs[1..]);
      if Depth(cs[0]) > rest then Depth(cs[0]) else rest
  }

  lemma {:induction false} DeepestIsLeast(cs: seq<Commit>, i: nat)
    requires i < |cs|
    ensures Depth(cs[i]) <= Deepest(cs)
  {
    if i > 0 {
      DeepestIsLeast(cs[1..], i - 1);
    }
  }

  lemma {:induction false} AncestorsAreNoDeeper(a: Commit, b: Commit)
    requires IsAncestor(a, b)
    ensures Depth(a) <= Depth(b)
    decreases b
  {
    if a != b {
      var i :| 0 <= i < |b.parents| && IsAncestor(a, b.parents[i]);
      AncestorsAreNoDeeper(a, b.parents[i]);
      DeepestIsLeast(b.parents, i);
    }
  }

  /** What a commit made on base descends from: itself, and whatever base contains. */
  lemma MadeOnBase(h: Commit, base: Commit, files: Files, stamp: nat)
    ensures var c := Commit([base], files, stamp);
            && (IsAncestor(h, c) <==> h == c || IsAncestor(h, base))
            && (IsAncestor(h, base) ==> h != c)
  {
    var c := Commit([base], files, stamp);
    if IsAncestor(h, base) {
      assert IsAncestor(h, c.parents[0]);
      AncestorsAreNoDeeper(h, base);
      DeepestIsLeast(c.parents, 0);
    }
  }

  datatype Answer = Updated | UpToDate | NonFastForward

  /** A push to a branch that points at h may move it to c. A working copy that is one
      commit deep sees only as far as the parents of c; the host sees the whole history. */
  predicate Forwards(h: Commit, c: Commit, shallow: bool) {
    if shallow then h in c.parents else IsAncestor(h, c)
  }

  /** An absent branch is created, a branch that points at the commit is up to date, and
      any other moves forward only. */
  function Decide(head: Option<Commit>, c: Commit, shallow: bool): Answer {
    match head
    case None => Updated
    case Some(h) => if h == c then UpToDate else if Forwards(h, c, shallow) then Updated else NonFastForward
  }

  /** A branch is moved to a commit made on base exactly if base contains what it points
      at, as far as whoever decides can see. */
  lemma MovedExactly(h: Commit, base: Commit, files: Files, stamp: nat, shallow: bool)
    ensures Decide(Some(h), Commit([base], files, stamp), shallow) == Updated <==>
            if shallow then h == base else IsAncestor(h, base)
  {
    MadeOnBase(h, base, files, stamp);
    MadeOnBase(base, base, files, stamp);
  }
}
