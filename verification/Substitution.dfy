/** When replacing the captures one after the other is replacing them all at once:
    expandVariables of internal/model/rule.go on templates read as text and names. */
module Substitution {
  import opened Text
  import opened Expansion

  predicate IsDigit(c: char) { '0' <= c <= '9' }

  /** A capture name of the form "$" and digits. */
  predicate IsName(n: string) {
    |n| > 1 && n[0] == '$' && forall i :: 1 <= i < |n| ==> IsDigit(n[i])
  }

  // ---- Reading a template ----

  datatype Piece = Literal(text: string) | Name(name: string)

  function PieceText(p: Piece): string {
    match p case Literal(t) => t case Name(n) => n
  }

  function Rendered(ps: seq<Piece>): string {
    if ps == [] then "" else PieceText(ps[0]) + Rendered(ps[1..])
  }

  /** Length of the longest prefix of characters that satisfy p. */
  function RunOf(s: string, p: char -> bool): (k: nat)
    ensures k <= |s| && (forall i :: 0 <= i < k ==> p(s[i])) && (k < |s| ==> !p(s[k]))
  {
    if s == "" || !p(s[0]) then 0 else 1 + RunOf(s[1..], p)
  }

  /** The longest "$digits", or text without "$", that the template starts with. */
  function FirstPiece(t: string): (p: Piece)
    requires t != ""
    ensures PieceText(p) != "" && PieceText(p) <= t
  {
    if t[0] == '$' then Name(t[..1 + RunOf(t[1..], IsDigit)]) else Literal(t[..RunOf(t, c => c != '$')])
  }

  /** The template cut at its maximal "$digits". */
  function Tokens(t: string): seq<Piece>
    decreases |t|
  {
    if t == "" then [] else [FirstPiece(t)] + Tokens(t[|PieceText(FirstPiece(t))|..])
  }

  /** Literals have no "$", and none that stands behind a name starts with a digit. */
  predicate Tokenized(ps: seq<Piece>) {
    && (forall i :: 0 <= i < |ps| && ps[i].Literal? ==> ps[i].text != "" && Free(ps[i].text, '$'))
    && forall i :: 0 <= i < |ps| - 1 && ps[i].Name? && ps[i + 1].Literal? ==> !IsDigit(ps[i + 1].text[0])
  }

  lemma RenderedCons(p: Piece, ps: seq<Piece>)
    ensures Rendered([p] + ps) == PieceText(p) + Rendered(ps)
  {
    assert ([p] + ps)[1..] == ps;
  }

  lemma {:induction false} TokensRender(t: string)
    ensures Rendered(Tokens(t)) == t
    decreases |t|
  {
    if t != "" {
      var first := FirstPiece(t);
      var rest := t[|PieceText(first)|..];
      TokensRender(rest);
      RenderedCons(first, Tokens(rest));
      assert t == PieceText(first) + rest;
    }
  }

  /** What comes behind the first piece does not belong to it. */
  lemma PieceEnds(t: string)
    requires t != "" && |PieceText(FirstPiece(t))| < |t|
    ensures var p := FirstPiece(t); p.Name? ==> !IsDigit(t[|p.name|])
  {
  }

  lemma {:induction false} TokensTokenized(t: string)
    ensures Tokenized(Tokens(t))
    decreases |t|
  {
    if t != "" {
      var p := FirstPiece(t);
      var rest := t[|PieceText(p)|..];
      TokensTokenized(rest);
      if rest != "" {
        PieceEnds(t);
      }
      TokenizedCons(p, Tokens(rest));
    }
  }

  lemma TokenizedCons(p: Piece, rest: seq<Piece>)
    requires Tokenized(rest) && (p.Literal? ==> p.text != "" && Free(p.text, '$'))
    requires p.Name? && rest != [] && rest[0].Literal? ==> !IsDigit(rest[0].text[0])
    ensures Tokenized([p] + rest)
  {
    var ps := [p] + rest;
    assert forall i :: 0 < i < |ps| ==> ps[i] == rest[i - 1];
  }

  function Valued(p: Piece, vars: map<string, string>): string {
    match p
    case Literal(t) => t
    case Name(n) => if n in vars then vars[n] else n
  }

  /** Simultaneous substitution: every name replaced once, by its value. */
  function Substituted(ps: seq<Piece>, vars: map<string, string>): string {
    if ps == [] then "" else Valued(ps[0], vars) + Substituted(ps[1..], vars)
  }

  // ---- Filling in names ----

  /** The pieces with the names in done given their values. */
  function Filled(ps: seq<Piece>, done: set<string>, vars: map<string, string>): (r: seq<Piece>)
    ensures |r| == |ps|
    ensures forall i :: 0 <= i < |ps| ==> r[i] == Fill(ps[i], done, vars)
  {
    seq(|ps|, i requires 0 <= i < |ps| => Fill(ps[i], done, vars))
  }

  function Fill(p: Piece, done: set<string>, vars: map<string, string>): Piece {
    if p.Name? && p.name in done && p.name in vars then Literal(vars[p.name]) else p
  }

  /** The text of the pieces from i on. */
  function Behind(ps: seq<Piece>, i: nat, done: set<string>, vars: map<string, string>): string
    requires i <= |ps|
    decreases |ps| - i
  {
    if i == |ps| then "" else PieceText(Fill(ps[i], done, vars)) + Behind(ps, i + 1, done, vars)
  }

  function Members(names: seq<string>): set<string> { set n | n in names }

  predicate Captured(ps: seq<Piece>, keys: set<string>) {
    forall i :: 0 <= i < |ps| && ps[i].Name? ==> ps[i].name in keys
  }

  ghost predicate NamesOnly(keys: set<string>) { forall n :: n in keys ==> IsName(n) }

  ghost predicate ValuesFree(vars: map<string, string>) {
    forall n :: n in vars ==> IsName(n) && Free(vars[n], '$')
  }

  // ---- Replacing one name ----

  /** Where it does not match, another name is passed over. */
  lemma ReplacePasses(other: string, rest: string, name: string, by_: string)
    requires IsName(other) && IsName(name) && !(name <= other + rest)
    ensures ReplaceAll(other + rest, name, by_) == other + ReplaceAll(rest, name, by_)
  {
    var s, digits := other + rest, other[1..];
    assert other == [other[0]] + digits;
    assert s == [other[0]] + (digits + rest);
    ReplaceSkips(digits, rest, name, by_);
    ReplaceUnmatched(s, name, by_);
    assert s[1..] == digits + rest;
    assert other + ReplaceAll(rest, name, by_) == [other[0]] + (digits + ReplaceAll(rest, name, by_));
  }

  lemma ReplaceUnmatched(s: string, name: string, by_: string)
    requires name != "" && s != "" && !(name <= s)
    ensures ReplaceAll(s, name, by_) == [s[0]] + ReplaceAll(s[1..], name, by_)
  {
    assert s == [s[0]] + s[1..];
  }

  lemma ReplaceMatched(name: string, rest: string, by_: string)
    requires name != ""
    ensures ReplaceAll(name + rest, name, by_) == by_ + ReplaceAll(rest, name, by_)
  {
    assert (name + rest)[..|name|] == name && (name + rest)[|name|..] == rest;
  }

  /** x does not match at any name that is left but its own. */
  ghost predicate Untouched(ps: seq<Piece>, done: set<string>, vars: map<string, string>, x: string) {
    forall i :: 0 <= i < |ps| && ps[i].Name? && ps[i].name !in done && ps[i].name != x ==>
      !(x <= ps[i].name + Behind(ps, i + 1, done, vars))
  }

  /** Then replacing x fills in the names x, and nothing else. */
  lemma {:induction false} ReplaceFills(ps: seq<Piece>, i: nat, done: set<string>, x: string, vars: map<string, string>)
    requires Tokenized(ps) && Captured(ps, vars.Keys) && ValuesFree(vars) && i <= |ps|
    requires x in vars && x !in done && Untouched(ps, done, vars, x)
    ensures ReplaceAll(Behind(ps, i, done, vars), x, vars[x]) == Behind(ps, i, done + {x}, vars)
    decreases |ps| - i
  {
    if i < |ps| {
      var p, rest := ps[i], Behind(ps, i + 1, done, vars);
      ReplaceFills(ps, i + 1, done, x, vars);
      if Fill(p, done, vars).Literal? {
        ReplaceSkips(Fill(p, done, vars).text, rest, x, vars[x]);
      } else if p.name == x {
        ReplaceMatched(x, rest, vars[x]);
      } else {
        ReplacePasses(p.name, rest, x, vars[x]);
      }
    }
  }

  // ---- Replacing one after the other ----

  lemma {:induction false} NothingFilled(ps: seq<Piece>, i: nat, vars: map<string, string>)
    requires i <= |ps|
    ensures Behind(ps, i, {}, vars) == Rendered(ps[i..])
    decreases |ps| - i
  {
    if i < |ps| {
      NothingFilled(ps, i + 1, vars);
      assert ps[i..][0] == ps[i] && ps[i..][1..] == ps[i + 1..];
    }
  }

  lemma {:induction false} EverythingFilled(ps: seq<Piece>, i: nat, done: set<string>, vars: map<string, string>)
    requires i <= |ps| && forall n :: n in vars ==> n in done
    ensures Behind(ps, i, done, vars) == Substituted(ps[i..], vars)
    decreases |ps| - i
  {
    if i < |ps| {
      EverythingFilled(ps, i + 1, done, vars);
      assert ps[i..][0] == ps[i] && ps[i..][1..] == ps[i + 1..];
    }
  }

  lemma MembersSnoc(names: seq<string>, k: nat)
    requires k < |names|
    ensures Members(names[..k + 1]) == Members(names[..k]) + {names[k]}
  {
    assert names[..k + 1] == names[..k] + [names[k]];
  }

  /** The first k names of an order are each replaced for the first time, touching no other. */
  ghost predicate UntouchedSoFar(ps: seq<Piece>, names: seq<string>, k: nat, vars: map<string, string>)
    requires k <= |names|
  {
    k == 0 ||
    (&& UntouchedSoFar(ps, names, k - 1, vars)
     && names[k - 1] in vars && names[k - 1] !in Members(names[..k - 1])
     && Untouched(ps, Members(names[..k - 1]), vars, names[k - 1]))
  }

  lemma {:induction false} EachUntouched(ps: seq<Piece>, names: seq<string>, k: nat, vars: map<string, string>)
    requires VisitingOrder(names, vars) && k <= |names|
    requires forall j :: 0 <= j < k ==> Untouched(ps, Members(names[..j]), vars, names[j])
    ensures UntouchedSoFar(ps, names, k, vars)
  {
    if k > 0 {
      EachUntouched(ps, names, k - 1, vars);
      NotDoneYet(names, k - 1, vars);
    }
  }

  lemma NotDoneYet(names: seq<string>, k: nat, vars: map<string, string>)
    requires VisitingOrder(names, vars) && k < |names|
    ensures names[k] in vars && names[k] !in Members(names[..k])
  {
    assert names[k] in names;
  }

  lemma ExpandFillsNext(ps: seq<Piece>, names: seq<string>, k: nat, vars: map<string, string>)
    requires Tokenized(ps) && Captured(ps, vars.Keys) && ValuesFree(vars) && Known(names, vars)
    requires k < |names| && names[k] in vars && names[k] !in Members(names[..k])
    requires Untouched(ps, Members(names[..k]), vars, names[k])
    requires Expand(Rendered(ps), names[..k], vars) == Behind(ps, 0, Members(names[..k]), vars)
    ensures Expand(Rendered(ps), names[..k + 1], vars) == Behind(ps, 0, Members(names[..k + 1]), vars)
  {
    ExpandSnoc(Rendered(ps), names, k, vars);
    MembersSnoc(names, k);
    ReplaceFills(ps, 0, Members(names[..k]), names[k], vars);
  }

  lemma {:induction false} ExpandFills(ps: seq<Piece>, names: seq<string>, k: nat, vars: map<string, string>)
    requires Tokenized(ps) && Captured(ps, vars.Keys) && ValuesFree(vars)
    requires Known(names, vars) && k <= |names| && UntouchedSoFar(ps, names, k, vars)
    ensures Expand(Rendered(ps), names[..k], vars) == Behind(ps, 0, Members(names[..k]), vars)
  {
    if k == 0 {
      assert Members(names[..0]) == {} && ps[0..] == ps;
      NothingFilled(ps, 0, vars);
    } else {
      ExpandFills(ps, names, k - 1, vars);
      ExpandFillsNext(ps, names, k - 1, vars);
    }
  }

  // ---- Names that can run into each other ----

  /** Names i and i + 1 stand side by side, and the value of the second, once it is filled
      in, can complete the first to m, a captured name that is visited later. */
  predicate Clash(ps: seq<Piece>, keys: set<string>, i: int, m: string) {
    && 0 <= i < |ps| - 1 && ps[i].Name? && ps[i + 1].Name?
    && m in keys && m != ps[i + 1].name && ps[i].name < m && |m| <= |ps[i + 1].name|
  }

  /** What done is when x is visited: every longer name, and some as long as x. */
  ghost predicate VisitedBefore(done: set<string>, x: string, keys: set<string>) {
    && x !in done
    && (forall n :: n in done ==> |n| >= |x|)
    && forall n :: n in keys && |n| > |x| ==> n in done
  }

  lemma OrderVisits(names: seq<string>, k: nat, vars: map<string, string>)
    requires VisitingOrder(names, vars) && k < |names|
    ensures VisitedBefore(Members(names[..k]), names[k], vars.Keys)
  {
    var done := Members(names[..k]);
    NotDoneYet(names, k, vars);
    forall n | n in vars.Keys && |n| > |names[k]| ensures n in done {
      assert n in names;
      var j :| 0 <= j < |names| && names[j] == n;
      assert names[..k][j] == n;
    }
  }

  /** A name that matches at a different one that is not longer goes on behind it. */
  lemma MatchGoesOn(n: string, rest: string, x: string)
    requires IsName(n) && IsName(x) && n != x && |n| <= |x| && x <= n + rest
    ensures n < x && rest != "" && rest[0] == x[|n|] && IsDigit(rest[0])
  {
    assert forall j :: 0 <= j < |n| ==> x[j] == n[j];
  }

  /** A name that matches at another one has run into the value behind it. */
  lemma MatchIsClash(ps: seq<Piece>, i: nat, done: set<string>, vars: map<string, string>, x: string)
    requires Tokenized(ps) && Captured(ps, vars.Keys) && NamesOnly(vars.Keys)
    requires x in vars && VisitedBefore(done, x, vars.Keys)
    requires i < |ps| && ps[i].Name? && ps[i].name !in done && ps[i].name != x
    requires x <= ps[i].name + Behind(ps, i + 1, done, vars)
    ensures Clash(ps, vars.Keys, i, x)
  {
    var n, rest := ps[i].name, Behind(ps, i + 1, done, vars);
    assert n in vars.Keys;
    MatchGoesOn(n, rest, x);
    assert i + 1 < |ps|;
    assert Fill(ps[i + 1], done, vars) != ps[i + 1];
  }

  lemma NoClashUntouched(ps: seq<Piece>, done: set<string>, vars: map<string, string>, x: string)
    requires Tokenized(ps) && Captured(ps, vars.Keys) && NamesOnly(vars.Keys)
    requires x in vars && VisitedBefore(done, x, vars.Keys)
    requires forall i :: !Clash(ps, vars.Keys, i, x)
    ensures Untouched(ps, done, vars, x)
  {
    forall i | 0 <= i < |ps| && ps[i].Name? && ps[i].name !in done && ps[i].name != x
      ensures !(x <= ps[i].name + Behind(ps, i + 1, done, vars))
    {
      if x <= ps[i].name + Behind(ps, i + 1, done, vars) {
        MatchIsClash(ps, i, done, vars, x);
      }
    }
  }

  /** Without such names, replacing one after the other, in whatever order map iteration
      allows, is replacing them all at once. */
  lemma SequentialIsSimultaneous(t: string, names: seq<string>, vars: map<string, string>)
    requires Captured(Tokens(t), vars.Keys) && ValuesFree(vars) && VisitingOrder(names, vars) && Known(names, vars)
    requires forall i, m :: !Clash(Tokens(t), vars.Keys, i, m)
    ensures Expand(t, names, vars) == Substituted(Tokens(t), vars)
  {
    var ps := Tokens(t);
    TokensRender(t);
    TokensTokenized(t);
    forall j | 0 <= j < |names| ensures Untouched(ps, Members(names[..j]), vars, names[j]) {
      OrderVisits(names, j, vars);
      NotDoneYet(names, j, vars);
      NoClashUntouched(ps, Members(names[..j]), vars, names[j]);
    }
    EachUntouched(ps, names, |names|, vars);
    ExpandFills(ps, names, |names|, vars);
    assert names[..|names|] == names && ps[0..] == ps;
    EverythingFilled(ps, 0, Members(names), vars);
  }
}
