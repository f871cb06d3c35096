/** When a path segment of a location template vanishes: splitPath and expandVariables of
    internal/model/rule.go together. */
module BlankSegments {
  import opened Text
  import opened Expansion
  import opened Substitution
  import opened ManifestURL
  import opened SegmentExpansion
  import opened Planning
  import opened Rules

  /** Literal text or the value of a capture is to be seen in the segment. */
  predicate ShowsSomething(ps: seq<Piece>, vars: map<string, string>) {
    exists i :: 0 <= i < |ps| && !Blank(Valued(ps[i], vars))
  }

  lemma BlankConcat(a: string, b: string)
    ensures Blank(a + b) <==> Blank(a) && Blank(b)
  {
    if Blank(a + b) {
      assert forall i :: 0 <= i < |a| ==> (a + b)[i] == a[i];
      assert forall i :: 0 <= i < |b| ==> (a + b)[|a| + i] == b[i];
    }
  }

  lemma {:induction false} BlankSubstituted(ps: seq<Piece>, vars: map<string, string>)
    ensures Blank(Substituted(ps, vars)) <==> !ShowsSomething(ps, vars)
  {
    if ps != [] {
      BlankSubstituted(ps[1..], vars);
      BlankConcat(Valued(ps[0], vars), Substituted(ps[1..], vars));
      if i :| 0 <= i < |ps| && !Blank(Valued(ps[i], vars)) {
        assert i > 0 ==> ps[1..][i - 1] == ps[i];
      }
      if i :| 0 <= i < |ps[1..]| && !Blank(Valued(ps[1..][i], vars)) {
        assert ps[i + 1] == ps[1..][i];
      }
    }
  }

  /** All names of the segment are captured and none can run into another. */
  ghost predicate Separable(segment: string, keys: set<string>) {
    Captured(Tokens(segment), keys) && forall i, m :: !Clash(Tokens(segment), keys, i, m)
  }

  /** A segment expands to blanks exactly when its literal text is blank and so is every
      capture in it. */
  lemma SegmentBlankExactly(segment: string, names: seq<string>, vars: map<string, string>)
    requires Separable(segment, vars.Keys) && ValuesFree(vars) && VisitingOrder(names, vars) && Known(names, vars)
    ensures Blank(Expand(segment, names, vars)) <==> !ShowsSomething(Tokens(segment), vars)
  {
    SequentialIsSimultaneous(segment, names, vars);
    BlankSubstituted(Tokens(segment), vars);
  }

  lemma NamesAreCaptures(vars: map<string, string>)
    requires ValuesFree(vars) && forall n :: n in vars ==> Free(vars[n], '/')
    ensures Captures(vars)
  {
    forall n | n in vars ensures IsCapture(n) {
      assert IsName(n) && n[0] == '$';
    }
  }

  /** The expanded path has the template's segments, each expanded in its place, exactly
      when every segment that is not blank in the template shows literal text or a capture
      that is not blank. Otherwise a segment vanishes and the later ones move forward. */
  lemma SegmentsKeepTheirPlaces(template: string, names: seq<string>, vars: map<string, string>)
    requires ValuesFree(vars) && VisitingOrder(names, vars) && Known(names, vars)
    requires forall n :: n in vars ==> Free(vars[n], '/')
    requires forall i :: 0 <= i < |Split(template, '/')| ==> Separable(Split(template, '/')[i], vars.Keys)
    ensures SplitPath(Expand(template, names, vars)) == ExpandEach(SplitPath(template), names, vars) <==>
            forall i :: 0 <= i < |Split(template, '/')| && !Blank(Split(template, '/')[i]) ==>
              ShowsSomething(Tokens(Split(template, '/')[i]), vars)
  {
    var parts := Split(template, '/');
    NamesAreCaptures(vars);
    KeptUnlessBlank(template, names, vars);
    forall i | 0 <= i < |parts|
      ensures Blank(Expand(parts[i], names, vars)) <==> !ShowsSomething(Tokens(parts[i]), vars)
    {
      assert Separable(parts[i], vars.Keys);
      SegmentBlankExactly(parts[i], names, vars);
    }
  }

  // ---- An empty capture that is a whole segment ----

  lemma {:induction false} ExpandAcross(head: string, tail: string, names: seq<string>, vars: map<string, string>)
    requires Known(names, vars) && Captures(vars)
    ensures Expand(head + "/" + tail, names, vars) == Expand(head, names, vars) + "/" + Expand(tail, names, vars)
  {
    if names != [] {
      var before, n := names[..|names| - 1], names[|names| - 1];
      ExpandAcross(head, tail, before, vars);
      assert n in vars;
      ReplaceAcross(Expand(head, before, vars), Expand(tail, before, vars), n, vars[n]);
    }
  }

  /** One more character in front of a split text. */
  function InFront(c: char, parts: seq<string>): seq<string>
    requires parts != []
  {
    if c == '/' then [""] + parts else [[c] + parts[0]] + parts[1..]
  }

  lemma InFrontOfMore(c: char, parts: seq<string>, more: seq<string>)
    requires parts != []
    ensures InFront(c, parts + more) == InFront(c, parts) + more
  {
    assert (parts + more)[1..] == parts[1..] + more;
  }

  lemma SplitStep(c: char, s: string)
    ensures Split([c] + s, '/') == InFront(c, Split(s, '/'))
  {
    assert ([c] + s)[0] == c && ([c] + s)[1..] == s;
  }

  lemma SplitAcrossNext(c: char, head: string, tail: string)
    requires Split(head + "/" + tail, '/') == Split(head, '/') + Split(tail, '/')
    ensures Split([c] + head + "/" + tail, '/') == Split([c] + head, '/') + Split(tail, '/')
  {
    SplitStep(c, head);
    SplitStep(c, head + "/" + tail);
    InFrontOfMore(c, Split(head, '/'), Split(tail, '/'));
    assert [c] + head + "/" + tail == [c] + (head + "/" + tail);
  }

  lemma {:induction false} SplitAcross(head: string, tail: string)
    ensures Split(head + "/" + tail, '/') == Split(head, '/') + Split(tail, '/')
  {
    if head == "" {
      SplitStep('/', tail);
      assert "" + "/" + tail == ['/'] + tail;
    } else {
      SplitAcross(head[1..], tail);
      SplitAcrossNext(head[0], head[1..], tail);
      assert head == [head[0]] + head[1..];
    }
  }

  lemma NonBlankStep(x: string, rest: seq<string>)
    ensures NonBlank([x] + rest) == (if Blank(x) then [] else [x]) + NonBlank(rest)
  {
    assert ([x] + rest)[0] == x && ([x] + rest)[1..] == rest;
  }

  lemma {:induction false} NonBlankConcat(xs: seq<string>, ys: seq<string>)
    ensures NonBlank(xs + ys) == NonBlank(xs) + NonBlank(ys)
  {
    if xs == [] {
      assert xs + ys == ys && [] + NonBlank(ys) == NonBlank(ys);
    } else {
      var x, rest := xs[0], xs[1..];
      var shown: seq<string> := if Blank(x) then [] else [x];
      NonBlankConcat(rest, ys);
      NonBlankStep(x, rest);
      NonBlankStep(x, rest + ys);
      assert xs == [x] + rest && xs + ys == [x] + (rest + ys);
      assert shown + (NonBlank(rest) + NonBlank(ys)) == shown + NonBlank(rest) + NonBlank(ys);
    }
  }

  lemma SplitPathAcross(head: string, tail: string)
    ensures SplitPath(head + "/" + tail) == SplitPath(head) + SplitPath(tail)
  {
    SplitAcross(head, tail);
    NonBlankConcat(Split(head, '/'), Split(tail, '/'));
  }

  lemma SplitPathEmpty()
    ensures SplitPath("") == []
  {
    assert Split("", '/') == [""] && Blank("");
    assert NonBlank([""]) == NonBlank([""][1..]);
  }

  lemma {:induction false} DigitsRun(s: string)
    requires forall i :: 0 <= i < |s| ==> IsDigit(s[i])
    ensures RunOf(s, IsDigit) == |s|
  {
    if s != "" {
      DigitsRun(s[1..]);
    }
  }

  lemma NameIsOneToken(n: string)
    requires IsName(n)
    ensures Tokens(n) == [Name(n)]
  {
    forall i | 0 <= i < |n[1..]| ensures IsDigit(n[1..][i]) {
      assert n[1..][i] == n[i + 1];
    }
    DigitsRun(n[1..]);
    assert FirstPiece(n) == Name(n) && n[|n|..] == "";
  }

  lemma ExpandName(n: string, names: seq<string>, vars: map<string, string>)
    requires ValuesFree(vars) && VisitingOrder(names, vars) && Known(names, vars) && n in vars
    ensures Expand(n, names, vars) == vars[n]
  {
    NameIsOneToken(n);
    SequentialIsSimultaneous(n, names, vars);
    assert Substituted([Name(n)], vars) == vars[n] + Substituted([], vars);
  }

  /** A segment that is one capture, with an empty value, leaves the path as if the
      template did not have it: whatever stands behind moves one place forward. */
  lemma EmptyCaptureVanishes(head: string, n: string, tail: string, names: seq<string>, vars: map<string, string>)
    requires ValuesFree(vars) && VisitingOrder(names, vars) && Known(names, vars)
    requires (forall m :: m in vars ==> Free(vars[m], '/')) && n in vars && vars[n] == ""
    ensures SplitPath(Expand(head + "/" + (n + "/" + tail), names, vars)) ==
              SplitPath(Expand(head + "/" + tail, names, vars))
  {
    NamesAreCaptures(vars);
    var before, behind := Expand(head, names, vars), Expand(tail, names, vars);
    ExpandAcross(head, n + "/" + tail, names, vars);
    ExpandAcross(n, tail, names, vars);
    ExpandAcross(head, tail, names, vars);
    ExpandName(n, names, vars);
    SplitPathAcross(before, "" + "/" + behind);
    SplitPathAcross("", behind);
    SplitPathAcross(before, behind);
    SplitPathEmpty();
    assert [] + SplitPath(behind) == SplitPath(behind);
  }

  lemma EmptyTagPiece(rule: Rule, event: Event, i: nat)
    requires Bindings(rule, event).Some? && i < |rule.tagPieces| && IsVariable(rule.tagPieces[i])
    requires rule.tagPieces[i] !in rule.segments && forall j :: 0 <= j < |rule.tagPieces| && j != i ==>
               rule.tagPieces[j] != rule.tagPieces[i]
    requires Split(event.tag, '.')[i] == ""
    ensures var vars := AsMap(Bindings(rule, event).value);
            rule.tagPieces[i] in vars && vars[rule.tagPieces[i]] == ""
  {
    var bs, b := Bindings(rule, event).value, Binding(rule.tagPieces[i], "");
    var repository, pieces := SplitPath(event.repository), Split(event.tag, '.');
    PieceBound(rule.tagPieces, pieces, b);
    forall c | c in bs && c.name == b.name ensures c == b {
      SegmentBound(rule.segments, repository, c);
      PieceBound(rule.tagPieces, pieces, c);
    }
    BoundOnce(bs, b);
  }

  /** An event that does so: a tag that starts with a dot, for a rule that captures the
      part in front of the dot and has it as a segment of its location. */
  lemma LeadingDotMovesSegments(rule: Rule, event: Event, head: string, tail: string, names: seq<string>,
                                vars: map<string, string>)
    requires Bindings(rule, event).Some? && vars == AsMap(Bindings(rule, event).value)
    requires ValuesFree(vars) && VisitingOrder(names, vars) && Known(names, vars)
    requires forall m :: m in vars ==> Free(vars[m], '/')
    requires event.tag != "" && event.tag[0] == '.'
    requires rule.tagPieces != [] && IsName(rule.tagPieces[0]) && rule.tagPieces[0] !in rule.segments
    requires forall j :: 0 < j < |rule.tagPieces| ==> rule.tagPieces[j] != rule.tagPieces[0]
    ensures SplitPath(Expand(head + "/" + (rule.tagPieces[0] + "/" + tail), names, vars)) ==
            SplitPath(Expand(head + "/" + tail, names, vars))
  {
    assert rule.tagPieces[0][0] == '$';
    EmptyTagPiece(rule, event, 0);
    EmptyCaptureVanishes(head, rule.tagPieces[0], tail, names, vars);
  }
}
