/** Expanding the captures of a rule segment by segment: the text substitution of
    internal/model/rule.go never reaches across a slash. */
module SegmentExpansion {
  import opened Text
  import opened Expansion
  import opened ManifestURL

  predicate IsCapture(n: string) { !Free(n, '$') && Free(n, '/') }

  /** Captures as the rule loop makes them, and values that hold no slash. */
  ghost predicate Captures(vars: map<string, string>) {
    forall n :: n in vars ==> IsCapture(n) && Free(vars[n], '/')
  }

  // ---- Replacing one name ----

  /** Every character of s satisfies p. */
  predicate Every(s: string, p: char -> bool) { forall i :: 0 <= i < |s| ==> p(s[i]) }

  lemma {:induction false} ReplaceEvery(s: string, n: string, v: string, p: char -> bool)
    requires n != "" && Every(s, p) && Every(v, p)
    ensures Every(ReplaceAll(s, n, v), p)
    decreases |s|
  {
    if |s| < |n| {
    } else if s[..|n|] == n {
      ReplaceEvery(s[|n|..], n, v, p);
    } else {
      ReplaceEvery(s[1..], n, v, p);
    }
  }

  lemma {:induction false} ReplaceAbsent(s: string, n: string, v: string)
    requires Free(s, '$') && !Free(n, '$')
    ensures n != "" && ReplaceAll(s, n, v) == s
    decreases |s|
  {
    if |s| >= |n| {
      var i :| 0 <= i < |n| && n[i] == '$';
      ReplaceNext(s, n, v, i);
      ReplaceAbsent(s[1..], n, v);
      assert s == [s[0]] + s[1..];
    }
  }

  lemma NoNameAcross(head: string, tail: string, n: string)
    requires Free(n, '/') && |head + "/" + tail| >= |n| > |head|
    ensures (head + "/" + tail)[..|n|] != n
  {
    assert (head + "/" + tail)[..|n|][|head|] != n[|head|];
  }

  /** Replacing works on both sides of a slash separately. */
  predicate Across(head: string, tail: string, n: string, v: string)
    requires n != ""
  {
    ReplaceAll(head + "/" + tail, n, v) == ReplaceAll(head, n, v) + "/" + ReplaceAll(tail, n, v)
  }

  lemma Regroup(a: string, b: string, c: string, d: string)
    ensures a + b + c + d == a + (b + c + d)
  {
  }

  lemma AcrossHere(head: string, tail: string, n: string, v: string)
    requires n != "" && Across(head, tail, n, v)
    ensures Across(n + head, tail, n, v)
  {
    Regroup(n, head, "/", tail);
    Regroup(v, ReplaceAll(head, n, v), "/", ReplaceAll(tail, n, v));
  }

  lemma AcrossSkip(c: char, head: string, tail: string, n: string, v: string)
    requires n != "" && Across(head, tail, n, v)
    requires var s := [c] + head + "/" + tail; |s| >= |n| && s[..|n|] != n
    ensures Across([c] + head, tail, n, v)
  {
    var s := [c] + head + "/" + tail;
    assert s[1..] == head + "/" + tail;
    assert ([c] + head)[1..] == head;
    Regroup([c], ReplaceAll(head, n, v), "/", ReplaceAll(tail, n, v));
  }

  lemma {:induction false} ReplaceAcross(head: string, tail: string, n: string, v: string)
    requires n != "" && Free(n, '/')
    ensures Across(head, tail, n, v)
    decreases |head|
  {
    var s := head + "/" + tail;
    if head == "" {
    } else if |s| >= |n| {
      if |n| <= |head| && head[..|n|] == n {
        ReplaceAcross(head[|n|..], tail, n, v);
        AcrossHere(head[|n|..], tail, n, v);
        assert n + head[|n|..] == head;
      } else {
        NoMatchAcross(head, tail, n);
        ReplaceAcross(head[1..], tail, n, v);
        assert [head[0]] + head[1..] == head;
        AcrossSkip(head[0], head[1..], tail, n, v);
      }
    }
  }

  lemma NoMatchAcross(head: string, tail: string, n: string)
    requires Free(n, '/') && |head + "/" + tail| >= |n|
    requires |n| > |head| || head[..|n|] != n
    ensures (head + "/" + tail)[..|n|] != n
  {
    if |n| > |head| {
      NoNameAcross(head, tail, n);
    } else {
      assert (head + "/" + tail)[..|n|] == head[..|n|];
    }
  }

  function Replaced(parts: seq<string>, n: string, v: string): (r: seq<string>)
    requires n != ""
    ensures |r| == |parts| && forall i :: 0 <= i < |parts| ==> r[i] == ReplaceAll(parts[i], n, v)
  {
    seq(|parts|, i requires 0 <= i < |parts| => ReplaceAll(parts[i], n, v))
  }

  lemma {:induction false} ReplaceJoined(parts: seq<string>, n: string, v: string)
    requires n != "" && Free(n, '/') && parts != []
    ensures ReplaceAll(Join(parts, "/"), n, v) == Join(Replaced(parts, n, v), "/")
  {
    if |parts| > 1 {
      ReplaceJoined(parts[1..], n, v);
      ReplaceAcross(parts[0], Join(parts[1..], "/"), n, v);
      assert Replaced(parts, n, v)[1..] == Replaced(parts[1..], n, v);
    }
  }

  // ---- Replacing all of them ----

  function ExpandEach(parts: seq<string>, names: seq<string>, vars: map<string, string>): (r: seq<string>)
    requires Known(names, vars)
    ensures |r| == |parts| && forall i :: 0 <= i < |parts| ==> r[i] == Expand(parts[i], names, vars)
  {
    seq(|parts|, i requires 0 <= i < |parts| => Expand(parts[i], names, vars))
  }

  lemma {:induction false} ExpandJoined(parts: seq<string>, names: seq<string>, vars: map<string, string>)
    requires Known(names, vars) && Captures(vars) && parts != []
    ensures Expand(Join(parts, "/"), names, vars) == Join(ExpandEach(parts, names, vars), "/")
  {
    if names == [] {
      assert ExpandEach(parts, names, vars) == parts;
    } else {
      var before, n := names[..|names| - 1], names[|names| - 1];
      ExpandJoined(parts, before, vars);
      ReplaceJoined(ExpandEach(parts, before, vars), n, vars[n]);
      assert ExpandEach(parts, names, vars) == Replaced(ExpandEach(parts, before, vars), n, vars[n]);
    }
  }

  lemma {:induction false} ExpandEvery(s: string, names: seq<string>, vars: map<string, string>, p: char -> bool)
    requires Known(names, vars) && Captures(vars) && Every(s, p)
    requires forall n :: n in vars ==> Every(vars[n], p)
    ensures Every(Expand(s, names, vars), p)
  {
    if names != [] {
      var before, n := names[..|names| - 1], names[|names| - 1];
      ExpandEvery(s, before, vars, p);
      ReplaceEvery(Expand(s, before, vars), n, vars[n], p);
    }
  }

  lemma ExpandSlashFree(s: string, names: seq<string>, vars: map<string, string>)
    requires Known(names, vars) && Captures(vars) && Free(s, '/')
    ensures Free(Expand(s, names, vars), '/')
  {
    ExpandEvery(s, names, vars, c => c != '/');
  }

  lemma {:induction false} ExpandConstant(s: string, names: seq<string>, vars: map<string, string>)
    requires Known(names, vars) && Captures(vars) && Free(s, '$')
    ensures Expand(s, names, vars) == s
  {
    if names != [] {
      ExpandConstant(s, names[..|names| - 1], vars);
      ReplaceAbsent(s, names[|names| - 1], vars[names[|names| - 1]]);
    }
  }

  /** Splitting the expanded text gives the expanded segments. */
  lemma ExpandSplits(template: string, names: seq<string>, vars: map<string, string>)
    requires Known(names, vars) && Captures(vars)
    ensures Split(Expand(template, names, vars), '/') == ExpandEach(Split(template, '/'), names, vars)
  {
    var parts := Split(template, '/');
    JoinSplit(template, '/');
    ExpandJoined(parts, names, vars);
    var each := ExpandEach(parts, names, vars);
    forall i | 0 <= i < |each| ensures Free(each[i], '/') {
      ExpandSlashFree(parts[i], names, vars);
    }
    SplitJoin(each, '/');
  }

  // ---- What a segment cannot become ----

  /** Some character of s satisfies p. */
  predicate Has(s: string, p: char -> bool) { exists i :: 0 <= i < |s| && p(s[i]) }

  lemma HasIn(a: string, b: string, p: char -> bool)
    requires Has(a, p) || Has(b, p)
    ensures Has(a + b, p)
  {
    if i :| 0 <= i < |a| && p(a[i]) {
      assert p((a + b)[i]);
    } else {
      var i :| 0 <= i < |b| && p(b[i]);
      assert p((a + b)[|a| + i]);
    }
  }

  lemma {:induction false} ReplaceHas(s: string, n: string, v: string, p: char -> bool)
    requires n != "" && Has(s, p) && Has(v, p)
    ensures Has(ReplaceAll(s, n, v), p)
    decreases |s|
  {
    if |s| < |n| {
    } else if s[..|n|] == n {
      HasIn(v, ReplaceAll(s[|n|..], n, v), p);
    } else {
      assert s == [s[0]] + s[1..];
      if p(s[0]) {
        assert p([s[0]][0]);
      } else {
        ReplaceHas(s[1..], n, v, p);
      }
      HasIn([s[0]], ReplaceAll(s[1..], n, v), p);
    }
  }

  /** If every value has a character of some kind, a segment that has one keeps having one. */
  lemma {:induction false} ExpandHas(s: string, names: seq<string>, vars: map<string, string>, p: char -> bool)
    requires Known(names, vars) && Captures(vars) && Has(s, p)
    requires forall n :: n in vars ==> Has(vars[n], p)
    ensures Has(Expand(s, names, vars), p)
  {
    if names != [] {
      var before, n := names[..|names| - 1], names[|names| - 1];
      ExpandHas(s, before, vars, p);
      ReplaceHas(Expand(s, before, vars), n, vars[n], p);
    }
  }

  // ---- Blank, starred and climbing segments ----

  predicate NotSpace(c: char) { !IsSpace(c) }

  predicate NotStar(c: char) { c != '*' }

  ghost predicate Visible(vars: map<string, string>) { forall n :: n in vars ==> !Blank(vars[n]) }

  lemma ExpandBlank(s: string, names: seq<string>, vars: map<string, string>)
    requires Known(names, vars) && Captures(vars) && Visible(vars)
    ensures Blank(Expand(s, names, vars)) <==> Blank(s)
  {
    if Blank(s) {
      ExpandConstant(s, names, vars);
    } else {
      ExpandHas(s, names, vars, NotSpace);
    }
  }

  lemma ExpandWildcard(s: string, names: seq<string>, vars: map<string, string>)
    requires Known(names, vars) && Captures(vars)
    requires forall n :: n in vars ==> Has(vars[n], NotStar)
    ensures Expand(s, names, vars) == RECURSIVE_WILDCARD <==> s == RECURSIVE_WILDCARD
  {
    if Has(s, NotStar) {
      ExpandHas(s, names, vars, NotStar);
    } else {
      ExpandConstant(s, names, vars);
    }
  }

  /** Replacing changes nothing, or leaves the value somewhere in the text. */
  lemma {:induction false} ReplaceShape(s: string, n: string, v: string) returns (a: string, b: string)
    requires n != ""
    ensures ReplaceAll(s, n, v) == s || ReplaceAll(s, n, v) == a + v + b
    decreases |s|
  {
    a, b := "", "";
    if |s| < |n| {
    } else if s[..|n|] == n {
      b := ReplaceAll(s[|n|..], n, v);
      assert "" + v + b == v + b;
    } else {
      var c, d := ReplaceShape(s[1..], n, v);
      a, b := [s[0]] + c, d;
      assert s == [s[0]] + s[1..];
      assert a + v + b == [s[0]] + (c + v + d);
    }
  }

  lemma AroundDots(a: string, v: string, b: string)
    requires v != "" && !IsDots(v)
    ensures !IsDots(a + v + b)
  {
    var s := a + v + b;
    if |s| <= 2 {
      assert s[|a|..|a| + |v|] == v;
      if |v| == 2 {
        assert s == v;
      } else if |v| == 1 {
        assert s[|a|] == v[0] != '.';
      }
    }
  }

  lemma {:induction false} ExpandDots(s: string, names: seq<string>, vars: map<string, string>)
    requires Known(names, vars) && Captures(vars) && !IsDots(s)
    requires forall n :: n in vars ==> vars[n] != "" && !IsDots(vars[n])
    ensures !IsDots(Expand(s, names, vars))
  {
    if names != [] {
      var before, n := names[..|names| - 1], names[|names| - 1];
      ExpandDots(s, before, vars);
      var a, b := ReplaceShape(Expand(s, before, vars), n, vars[n]);
      AroundDots(a, vars[n], b);
    }
  }

  // ---- The segments of the expanded path ----

  lemma EachCons(part: string, rest: seq<string>, names: seq<string>, vars: map<string, string>)
    requires Known(names, vars)
    ensures ExpandEach([part] + rest, names, vars) == [Expand(part, names, vars)] + ExpandEach(rest, names, vars)
  {
  }

  lemma BlankStays(s: string, names: seq<string>, vars: map<string, string>)
    requires Known(names, vars) && Captures(vars) && Blank(s)
    ensures Expand(s, names, vars) == s
  {
    ExpandConstant(s, names, vars);
  }

  lemma {:induction false} NonBlankEach(parts: seq<string>, names: seq<string>, vars: map<string, string>)
    requires Known(names, vars) && Captures(vars)
    requires forall i :: 0 <= i < |parts| && !Blank(parts[i]) ==> !Blank(Expand(parts[i], names, vars))
    ensures NonBlank(ExpandEach(parts, names, vars)) == ExpandEach(NonBlank(parts), names, vars)
  {
    if parts == [] {
      assert ExpandEach(parts, names, vars) == [];
    } else {
      var part, rest := parts[0], parts[1..];
      assert parts == [part] + rest;
      NonBlankEach(rest, names, vars);
      EachCons(part, rest, names, vars);
      if Blank(part) {
        BlankStays(part, names, vars);
      } else {
        EachCons(part, NonBlank(rest), names, vars);
      }
    }
  }

  lemma {:induction false} NonBlankNoMore(parts: seq<string>, names: seq<string>, vars: map<string, string>)
    requires Known(names, vars) && Captures(vars)
    ensures |NonBlank(ExpandEach(parts, names, vars))| <= |NonBlank(parts)|
  {
    if parts != [] {
      var part, rest := parts[0], parts[1..];
      NonBlankNoMore(rest, names, vars);
      OneFewer(parts, names, vars);
    }
  }

  lemma OneFewer(parts: seq<string>, names: seq<string>, vars: map<string, string>)
    requires Known(names, vars) && Captures(vars) && parts != []
    ensures |NonBlank(parts)| - |NonBlank(parts[1..])| == if Blank(parts[0]) then 0 else 1
    ensures |NonBlank(ExpandEach(parts, names, vars))| - |NonBlank(ExpandEach(parts[1..], names, vars))| ==
            if Blank(parts[0]) || Blank(Expand(parts[0], names, vars)) then 0 else 1
  {
    var part, rest := parts[0], parts[1..];
    assert parts == [part] + rest;
    EachCons(part, rest, names, vars);
    if Blank(part) {
      BlankStays(part, names, vars);
    }
  }

  lemma {:induction false} NonBlankFewer(parts: seq<string>, names: seq<string>, vars: map<string, string>, i: nat)
    requires Known(names, vars) && Captures(vars)
    requires i < |parts| && !Blank(parts[i]) && Blank(Expand(parts[i], names, vars))
    ensures |NonBlank(ExpandEach(parts, names, vars))| < |NonBlank(parts)|
  {
    OneFewer(parts, names, vars);
    if i > 0 {
      NonBlankFewer(parts[1..], names, vars, i - 1);
    } else {
      NonBlankNoMore(parts[1..], names, vars);
    }
  }

  /** The expanded path has the template's segments, each expanded in its place, exactly
      when no segment expands to blanks: a blank tag piece makes its segment vanish and
      moves the ones behind it forward. */
  lemma KeptUnlessBlank(template: string, names: seq<string>, vars: map<string, string>)
    requires Known(names, vars) && Captures(vars)
    ensures SplitPath(Expand(template, names, vars)) == ExpandEach(SplitPath(template), names, vars) <==>
            forall i :: 0 <= i < |Split(template, '/')| && !Blank(Split(template, '/')[i]) ==>
              !Blank(Expand(Split(template, '/')[i], names, vars))
  {
    var parts := Split(template, '/');
    ExpandSplits(template, names, vars);
    if i :| 0 <= i < |parts| && !Blank(parts[i]) && Blank(Expand(parts[i], names, vars)) {
      NonBlankFewer(parts, names, vars, i);
    } else {
      NonBlankEach(parts, names, vars);
    }
  }

  // ---- The location of an expanded template ----

  predicate IsControl(c: char) { c as int < 0x20 || c as int == 0x7f }

  /** A character that stands for itself in the path of a URL. */
  predicate Literally(c: char) { c != '%' && c != '#' && c != '?' && !IsControl(c) }

  /** The URL parser reads the path of a repository URL as it is written, unless the path
      holds a percent sign, a query, a fragment or a control character (sections 3.3 to
      3.5 of RFC 3986). */
  ghost predicate ReadsLiterally(parse: string -> Option<URL>) {
    forall p: string :: Every(p, Literally) ==>
      parse(SITE + p) == Some(URL("https", "github.com", false, "", "", "/" + p))
  }

  /** A capture that is safe to write into a path: visible, and neither a wildcard nor a climb. */
  predicate Ordinary(v: string) { !Blank(v) && !IsDots(v) && Plain(v) && Every(v, Literally) }

  ghost predicate AllOrdinary(vars: map<string, string>) { forall n :: n in vars ==> Ordinary(vars[n]) }

  lemma {:induction false} ExpandBehindConstant(head: string, tail: string, names: seq<string>,
                                                vars: map<string, string>)
    requires Known(names, vars) && Captures(vars) && Free(head, '$')
    ensures Expand(head + "/" + tail, names, vars) == head + "/" + Expand(tail, names, vars)
  {
    if names != [] {
      var before, n := names[..|names| - 1], names[|names| - 1];
      ExpandBehindConstant(head, tail, before, vars);
      ReplaceAcross(head, Expand(tail, before, vars), n, vars[n]);
      ReplaceAbsent(head, n, vars[n]);
    }
  }

  function Prefixed(a: string, b: string, c: string, t: string): string { a + "/" + (b + "/" + (c + "/" + t)) }

  lemma ExpandBehindPrefix(a: string, b: string, c: string, t: string, names: seq<string>, vars: map<string, string>)
    requires Known(names, vars) && Captures(vars) && Free(a, '$') && Free(b, '$') && Free(c, '$')
    ensures Expand(Prefixed(a, b, c, t), names, vars) == Prefixed(a, b, c, Expand(t, names, vars))
  {
    ExpandBehindConstant(c, t, names, vars);
    ExpandBehindConstant(b, c + "/" + t, names, vars);
    ExpandBehindConstant(a, b + "/" + (c + "/" + t), names, vars);
  }

  lemma SiteIsPrefix(t: string)
    ensures SITE + t == Prefixed("https:", "", "github.com", t)
  {
    assert SITE == "https:" + "/" + "" + "/" + "github.com" + "/";
  }

  lemma ExpandBehindSite(t: string, names: seq<string>, vars: map<string, string>)
    requires Known(names, vars) && Captures(vars)
    ensures Expand(SITE + t, names, vars) == SITE + Expand(t, names, vars)
  {
    SiteIsPrefix(t);
    SiteIsPrefix(Expand(t, names, vars));
    ExpandBehindPrefix("https:", "", "github.com", t, names, vars);
  }

  lemma SplitPathFromRoot(p: string)
    ensures SplitPath("/" + p) == SplitPath(p)
  {
    SplitPrefix("", p, '/');
    assert "" + ['/'] + p == "/" + p;
  }

  lemma {:induction false} StarsEach(segs: seq<string>, names: seq<string>, vars: map<string, string>)
    requires Known(names, vars) && Captures(vars)
    requires forall i :: 0 <= i < |segs| ==> (Expand(segs[i], names, vars) == RECURSIVE_WILDCARD <==>
                                              segs[i] == RECURSIVE_WILDCARD)
    ensures Stars(ExpandEach(segs, names, vars)) == Stars(segs)
  {
    if segs != [] {
      StarsEach(segs[..|segs| - 1], names, vars);
      assert ExpandEach(segs, names, vars)[..|segs| - 1] == ExpandEach(segs[..|segs| - 1], names, vars);
    }
  }

  lemma ExpandSegment(s: string, names: seq<string>, vars: map<string, string>)
    requires Known(names, vars) && Captures(vars) && AllOrdinary(vars) && !IsDots(s)
    ensures !IsDots(Expand(s, names, vars))
    ensures Expand(s, names, vars) == RECURSIVE_WILDCARD <==> s == RECURSIVE_WILDCARD
    ensures Plain(s) ==> Plain(Expand(s, names, vars))
  {
    assert forall n :: n in vars ==>
      Has(vars[n], NotStar) && vars[n] != "" && !IsDots(vars[n]) && Every(vars[n], c => !IsWild(c));
    ExpandDots(s, names, vars);
    ExpandWildcard(s, names, vars);
    if Plain(s) {
      ExpandEvery(s, names, vars, c => !IsWild(c));
    }
  }

  lemma ExpandValid(segs: seq<string>, names: seq<string>, vars: map<string, string>)
    requires Known(names, vars) && Captures(vars) && AllOrdinary(vars) && ValidManifestPath(segs)
    ensures ValidManifestPath(ExpandEach(segs, names, vars))
    ensures forall i :: 0 <= i < |segs| ==> (ExpandEach(segs, names, vars)[i] == RECURSIVE_WILDCARD <==>
                                             segs[i] == RECURSIVE_WILDCARD)
  {
    var each := ExpandEach(segs, names, vars);
    forall i | 0 <= i < |segs|
      ensures each[i] == RECURSIVE_WILDCARD <==> segs[i] == RECURSIVE_WILDCARD
      ensures !IsDots(each[i]) && (each[i] == RECURSIVE_WILDCARD || Plain(each[i]))
    {
      ExpandSegment(segs[i], names, vars);
    }
    StarsEach(segs, names, vars);
  }

  lemma OrdinarySplitPath(t: string, names: seq<string>, vars: map<string, string>)
    requires Known(names, vars) && Captures(vars) && AllOrdinary(vars)
    ensures SplitPath(Expand(t, names, vars)) == ExpandEach(SplitPath(t), names, vars)
  {
    var parts := Split(t, '/');
    forall n | n in vars ensures !Blank(vars[n]) {
      assert Ordinary(vars[n]);
    }
    forall i | 0 <= i < |parts| && !Blank(parts[i]) ensures !Blank(Expand(parts[i], names, vars)) {
      ExpandBlank(parts[i], names, vars);
    }
    KeptUnlessBlank(t, names, vars);
  }

  /** The expanded URL is read as it is written. */
  lemma ExpandedIsRead(parse: string -> Option<URL>, t: string, names: seq<string>, vars: map<string, string>)
    requires ReadsLiterally(parse) && Known(names, vars) && Captures(vars) && AllOrdinary(vars) && Every(t, Literally)
    ensures parse(Expand(SITE + t, names, vars)) ==
            Some(URL("https", "github.com", false, "", "", "/" + Expand(t, names, vars)))
  {
    ExpandBehindSite(t, names, vars);
    forall n | n in vars ensures Every(vars[n], Literally) {
      assert Ordinary(vars[n]);
    }
    ExpandEvery(t, names, vars, Literally);
  }

  lemma ExpandedPath(t: string, names: seq<string>, vars: map<string, string>)
    requires Known(names, vars) && Captures(vars) && AllOrdinary(vars)
    ensures SplitPath("/" + Expand(t, names, vars)) == ExpandEach(SplitPath(t), names, vars)
  {
    SplitPathFromRoot(Expand(t, names, vars));
    OrdinarySplitPath(t, names, vars);
  }

  lemma ExpandedTail(segs: seq<string>, names: seq<string>, vars: map<string, string>)
    requires Known(names, vars) && Captures(vars) && AllOrdinary(vars)
    requires |segs| >= 2 && ValidManifestPath(segs[2..])
    ensures ValidManifestPath(ExpandEach(segs, names, vars)[2..])
    ensures forall i :: 2 <= i < |segs| ==>
              (ExpandEach(segs, names, vars)[i] == RECURSIVE_WILDCARD <==> segs[i] == RECURSIVE_WILDCARD)
  {
    var each, tail := ExpandEach(segs, names, vars), segs[2..];
    ExpandValid(tail, names, vars);
    assert each[2..] == ExpandEach(tail, names, vars);
    forall i | 2 <= i < |segs| ensures each[i] == RECURSIVE_WILDCARD <==> segs[i] == RECURSIVE_WILDCARD {
      assert tail[i - 2] == segs[i] && each[2..][i - 2] == each[i];
    }
  }

  /** A template that compiled gives, for ordinary captures, a location: its segments are
      the template's, each expanded in its place, and the wildcard stays where it was. */
  lemma LocationIsTheExpandedTemplate(parse: string -> Option<URL>, t: string, names: seq<string>,
                                      vars: map<string, string>)
    requires ReadsLiterally(parse) && Known(names, vars) && Captures(vars) && AllOrdinary(vars)
    requires Every(t, Literally) && |SplitPath(t)| >= 2 && ValidManifestPath(SplitPath(t)[2..])
    ensures var parsed, segs := parse(Expand(SITE + t, names, vars)), ExpandEach(SplitPath(t), names, vars);
            Usable(parsed) && LocationOf(SplitPath(parsed.value.path)) == LocationOf(segs)
    ensures forall i :: 2 <= i < |SplitPath(t)| ==>
              (ExpandEach(SplitPath(t), names, vars)[i] == RECURSIVE_WILDCARD <==>
               SplitPath(t)[i] == RECURSIVE_WILDCARD)
  {
    ExpandedIsRead(parse, t, names, vars);
    ExpandedPath(t, names, vars);
    ExpandedTail(SplitPath(t), names, vars);
  }
}
