/** Textual substitution of captures: expandVariables of internal/model/rule.go. */
module Expansion {
  import opened Text
  import Sorting

  /** strings.ReplaceAll with a non-empty old text. */
  function ReplaceAll(s: string, old_: string, by_: string): string
    requires old_ != ""
    decreases |s|
  {
    if |s| < |old_| then s
    else if s[..|old_|] == old_ then by_ + ReplaceAll(s[|old_|..], old_, by_)
    else [s[0]] + ReplaceAll(s[1..], old_, by_)
  }

  // ---- expandVariables ----

  predicate LongerFirst(a: string, b: string) { |a| >= |b| }

  /** The names in the order visited: some order that puts longer names first. */
  ghost predicate VisitingOrder(names: seq<string>, vars: map<string, string>) {
    && (forall n :: n in names <==> n in vars)
    && forall i, j :: 0 <= i < j < |names| ==> |names[i]| >= |names[j]| && names[i] != names[j]
  }

  predicate Known(names: seq<string>, vars: map<string, string>) {
    forall i :: 0 <= i < |names| ==> names[i] in vars && names[i] != ""
  }

  function Expand(template: string, names: seq<string>, vars: map<string, string>): string
    requires Known(names, vars)
  {
    if names == [] then template
    else
      var last := names[|names| - 1];
      ReplaceAll(Expand(template, names[..|names| - 1], vars), last, vars[last])
  }

  /** Map order decides among names of one length. */
  method ExpandVariables(template: string, vars: map<string, string>) returns (r: string, ghost names: seq<string>)
    requires "" !in vars
    ensures VisitingOrder(names, vars) && Known(names, vars) && r == Expand(template, names, vars)
  {
    var keys := vars.Keys;
    var unsorted: seq<string> := [];
    while keys != {}
      invariant keys <= vars.Keys
      invariant forall n :: n in vars <==> n in unsorted || n in keys
      invariant forall n :: n in unsorted ==> n !in keys
      invariant forall i, j :: 0 <= i < j < |unsorted| ==> unsorted[i] != unsorted[j]
      decreases keys
    {
      ghost var witness_ := Sorting.Member(keys);
      var n :| n in keys;
      keys := keys - {n};
      unsorted := unsorted + [n];
    }
    var sorted := Sorting.SortSlice(unsorted, LongerFirst);
    Sorting.SameMembers(unsorted, sorted);
    forall i, j | 0 <= i < j < |sorted| ensures |sorted[i]| >= |sorted[j]| && sorted[i] != sorted[j] {
      Sorting.DistinctPermutation(unsorted, sorted, i, j);
      assert LongerFirst(sorted[i], sorted[j]);
    }
    names := sorted;
    r := template;
    assert Known(sorted, vars) by {
      assert forall i :: 0 <= i < |sorted| ==> sorted[i] in sorted;
    }
    for i := 0 to |sorted|
      invariant r == Expand(template, sorted[..i], vars)
    {
      assert sorted[..i + 1][..i] == sorted[..i];
      r := ReplaceAll(r, sorted[i], vars[sorted[i]]);
    }
    assert sorted[..|sorted|] == sorted;
  }

  // ---- One replacement, one name ----

  /** A character that does not start the name is passed over. */
  lemma ReplaceStep(c: char, rest: string, name: string, by_: string)
    requires name != "" && name[0] != c
    ensures ReplaceAll([c] + rest, name, by_) == [c] + ReplaceAll(rest, name, by_)
  {
    var s := [c] + rest;
    assert s[0] == c && s[1..] == rest;
    if |s| >= |name| {
      assert s[..|name|][0] != name[0];
    }
  }

  lemma {:induction false} ReplaceSkips(text: string, rest: string, name: string, by_: string)
    requires Free(text, '$') && name != "" && name[0] == '$'
    ensures ReplaceAll(text + rest, name, by_) == text + ReplaceAll(rest, name, by_)
    decreases |text|
  {
    if text == "" {
      assert text + rest == rest;
    } else {
      var c, tail := text[0], text[1..];
      ReplaceSkips(tail, rest, name, by_);
      ReplaceStep(c, tail + rest, name, by_);
      assert text + rest == [c] + (tail + rest);
      assert text + ReplaceAll(rest, name, by_) == [c] + (tail + ReplaceAll(rest, name, by_));
    }
  }

  /** A text that differs from the name in its k-th character gives up its first one. */
  lemma ReplaceNext(s: string, name: string, by_: string, k: nat)
    requires |s| >= |name| > k && s[k] != name[k]
    ensures ReplaceAll(s, name, by_) == [s[0]] + ReplaceAll(s[1..], name, by_)
  {
    assert s[..|name|][k] != name[k];
  }

  lemma ExpandSnoc(template: string, names: seq<string>, k: nat, vars: map<string, string>)
    requires k < |names| && Known(names, vars)
    ensures Expand(template, names[..k + 1], vars) == ReplaceAll(Expand(template, names[..k], vars), names[k],
                                                                 vars[names[k]])
  {
    assert names[..k + 1][..k] == names[..k];
  }

  // ---- Where the order shows ----

  lemma ExpandThree(template: string, a: string, b: string, c: string, vars: map<string, string>)
    requires a != "" && b != "" && c != "" && a in vars && b in vars && c in vars
    ensures Known([a, b, c], vars)
    ensures Expand(template, [a, b, c], vars) == ReplaceAll(ReplaceAll(ReplaceAll(template, a, vars[a]), b, vars[b]),
                                                            c, vars[c])
  {
    var names := [a, b, c];
    ExpandSnoc(template, names, 0, vars);
    ExpandSnoc(template, names, 1, vars);
    ExpandSnoc(template, names, 2, vars);
    assert names[..3] == names;
  }

  lemma TenFirst()
    ensures ReplaceAll(ReplaceAll(ReplaceAll("$1$23", "$10", "z"), "$23", "0"), "$1", "a") == "a0"
  {
    ReplaceNext("$1$23", "$10", "z", 2);
    ReplaceNext("1$23", "$10", "z", 0);
    ReplaceNext("$23", "$10", "z", 1);
    FillsTwentyThree();
  }

  lemma FillsTwentyThree()
    ensures ReplaceAll("$1$23", "$23", "0") == "$10"
  {
    ReplaceNext("$1$23", "$23", "0", 1);
    ReplaceNext("1$23", "$23", "0", 0);
  }

  lemma TwentyThreeFirst()
    ensures ReplaceAll(ReplaceAll(ReplaceAll("$1$23", "$23", "0"), "$10", "z"), "$1", "a") == "z"
  {
    FillsTwentyThree();
  }

  /** Without the separation the order shows: with two names side by side, the value of
      the second can complete a third. */
  lemma AdjacentNamesDependOnOrder(vars: map<string, string>)
    requires vars == map["$1" := "a", "$10" := "z", "$23" := "0"]
    ensures Known(["$10", "$23", "$1"], vars) && Known(["$23", "$10", "$1"], vars)
    ensures VisitingOrder(["$10", "$23", "$1"], vars) && VisitingOrder(["$23", "$10", "$1"], vars)
    ensures Expand("$1$23", ["$10", "$23", "$1"], vars) == "a0"
    ensures Expand("$1$23", ["$23", "$10", "$1"], vars) == "z"
  {
    ExpandThree("$1$23", "$10", "$23", "$1", vars);
    ExpandThree("$1$23", "$23", "$10", "$1", vars);
    TenFirst();
    TwentyThreeFirst();
  }
}
