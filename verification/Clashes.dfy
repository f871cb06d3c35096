/** Where the order of replacing captures shows: the exact condition under which
    expandVariables of internal/model/rule.go is simultaneous substitution. */
module Clashes {
  import opened Text
  import opened Expansion
  import opened Substitution
  import Sorting

  // ---- Counting ----

  /** How often ReplaceAll finds n in s. */
  function Occurrences(s: string, n: string): nat
    requires n != ""
    decreases |s|
  {
    if |s| < |n| then 0
    else if s[..|n|] == n then 1 + Occurrences(s[|n|..], n)
    else Occurrences(s[1..], n)
  }

  function Count(s: string, c: char): nat {
    if s == "" then 0 else Count(s[1..], c) + if s[0] == c then 1 else 0
  }

  lemma {:induction false} CountConcat(a: string, b: string, c: char)
    ensures Count(a + b, c) == Count(a, c) + Count(b, c)
  {
    if a == "" {
      assert a + b == b;
    } else {
      assert (a + b)[0] == a[0] && (a + b)[1..] == a[1..] + b;
      CountConcat(a[1..], b, c);
    }
  }

  lemma {:induction false} CountNone(s: string, c: char)
    requires Free(s, c)
    ensures Count(s, c) == 0
  {
    if s != "" {
      CountNone(s[1..], c);
    }
  }

  /** Replacing names without c counts one c an occurrence if the value is one, and none
      if the value has none. */
  lemma {:induction false} CountReplaced(s: string, n: string, v: string, c: char)
    requires n != "" && Free(n, c) && Count(v, c) <= 1
    ensures Count(ReplaceAll(s, n, v), c) == Count(s, c) + if Count(v, c) == 1 then Occurrences(s, n) else 0
    decreases |s|
  {
    if |s| < |n| {
    } else if s[..|n|] == n {
      CountReplaced(s[|n|..], n, v, c);
      CountConcat(v, ReplaceAll(s[|n|..], n, v), c);
      CountConcat(n, s[|n|..], c);
      CountNone(n, c);
      assert s == n + s[|n|..];
    } else {
      CountReplaced(s[1..], n, v, c);
      CountConcat([s[0]], ReplaceAll(s[1..], n, v), c);
    }
  }

  // ---- Occurrences of a name in a partly filled template ----

  lemma OccurrencesStep(c: char, rest: string, x: string)
    requires x != "" && x[0] != c
    ensures Occurrences([c] + rest, x) == Occurrences(rest, x)
  {
    var s := [c] + rest;
    assert s[0] == c && s[1..] == rest;
    if |s| >= |x| {
      assert s[..|x|][0] != x[0];
    }
  }

  lemma {:induction false} OccurrencesSkip(text: string, rest: string, x: string)
    requires Free(text, '$') && x != "" && x[0] == '$'
    ensures Occurrences(text + rest, x) == Occurrences(rest, x)
  {
    if text == "" {
      assert text + rest == rest;
    } else {
      OccurrencesSkip(text[1..], rest, x);
      OccurrencesStep(text[0], text[1..] + rest, x);
      assert text + rest == [text[0]] + (text[1..] + rest);
    }
  }

  lemma OccurrencesMatched(x: string, rest: string)
    requires x != ""
    ensures Occurrences(x + rest, x) == 1 + Occurrences(rest, x)
  {
    assert (x + rest)[..|x|] == x && (x + rest)[|x|..] == rest;
  }

  lemma OccurrencesUnmatched(s: string, x: string)
    requires x != "" && s != "" && !(x <= s)
    ensures Occurrences(s, x) == Occurrences(s[1..], x)
  {
  }

  lemma OccurrencesMatchedAtName(n: string, rest: string, x: string)
    requires IsName(n) && IsName(x) && |n| <= |x| && x <= n + rest
    ensures Occurrences(n + rest, x) == 1 + Occurrences(rest, x)
  {
    var s, more := n + rest, x[|n|..];
    var behind := s[|x|..];
    assert s == x + behind && rest == more + behind;
    OccurrencesMatched(x, behind);
    OccurrencesSkip(more, behind, x);
  }

  lemma OccurrencesUnmatchedAtName(n: string, rest: string, x: string)
    requires IsName(n) && IsName(x) && !(x <= n + rest)
    ensures Occurrences(n + rest, x) == Occurrences(rest, x)
  {
    OccurrencesUnmatched(n + rest, x);
    assert (n + rest)[1..] == n[1..] + rest;
    OccurrencesSkip(n[1..], rest, x);
  }

  /** How often the name x stands in the template from piece i on. */
  function Named(ps: seq<Piece>, x: string, i: nat): nat
    requires i <= |ps|
    decreases |ps| - i
  {
    if i == |ps| then 0 else Named(ps, x, i + 1) + if ps[i] == Name(x) then 1 else 0
  }

  /** A piece of a partly filled template, as it is when x is visited. */
  predicate Fits(p: Piece, x: string) {
    match p case Literal(t) => Free(t, '$') case Name(n) => IsName(n) && |n| <= |x|
  }

  ghost predicate AllFit(ps: seq<Piece>, done: set<string>, vars: map<string, string>, x: string) {
    IsName(x) && x !in done && forall i :: 0 <= i < |ps| ==> Fits(Fill(ps[i], done, vars), x)
  }

  lemma PiecesFit(ps: seq<Piece>, done: set<string>, vars: map<string, string>, x: string)
    requires Tokenized(ps) && Captured(ps, vars.Keys) && ValuesFree(vars)
    requires x in vars && VisitedBefore(done, x, vars.Keys)
    ensures AllFit(ps, done, vars, x)
  {
  }

  /** x is found at a name that is left exactly where it matches. */
  lemma OccurrencesAtPiece(ps: seq<Piece>, i: nat, done: set<string>, vars: map<string, string>, x: string)
    requires i < |ps| && IsName(x) && Fits(Fill(ps[i], done, vars), x)
    ensures var p, rest := Fill(ps[i], done, vars), Behind(ps, i + 1, done, vars);
            Occurrences(Behind(ps, i, done, vars), x) ==
            Occurrences(rest, x) + if p.Name? && x <= p.name + rest then 1 else 0
  {
    var p, rest := Fill(ps[i], done, vars), Behind(ps, i + 1, done, vars);
    if p.Literal? {
      OccurrencesSkip(p.text, rest, x);
    } else if x <= p.name + rest {
      OccurrencesMatchedAtName(p.name, rest, x);
    } else {
      OccurrencesUnmatchedAtName(p.name, rest, x);
    }
  }

  /** Every name x is found, and one more if x matches at another name. */
  lemma {:induction false} OccurrencesAtLeast(ps: seq<Piece>, i: nat, done: set<string>, vars: map<string, string>,
                                              x: string, at: nat)
    requires AllFit(ps, done, vars, x) && i <= |ps| && at < |ps|
    requires var p := Fill(ps[at], done, vars);
             p.Name? && p.name != x && x <= p.name + Behind(ps, at + 1, done, vars)
    ensures Occurrences(Behind(ps, i, done, vars), x) >= Named(ps, x, i) + if i <= at then 1 else 0
    decreases |ps| - i
  {
    if i < |ps| {
      OccurrencesAtLeast(ps, i + 1, done, vars, x, at);
      OccurrencesAtPiece(ps, i, done, vars, x);
    }
  }

  lemma MatchesItsOwn(ps: seq<Piece>, i: nat, done: set<string>, vars: map<string, string>, x: string)
    requires i < |ps| && x !in done && Captured(ps, vars.Keys) && Untouched(ps, done, vars, x)
    ensures var p := Fill(ps[i], done, vars);
            p.Name? && x <= p.name + Behind(ps, i + 1, done, vars) <==> ps[i] == Name(x)
  {
    if ps[i] == Name(x) {
      assert Fill(ps[i], done, vars) == ps[i];
    }
  }

  lemma OccurrencesAtUntouched(ps: seq<Piece>, i: nat, done: set<string>, vars: map<string, string>, x: string)
    requires AllFit(ps, done, vars, x) && i < |ps| && Untouched(ps, done, vars, x) && Captured(ps, vars.Keys)
    ensures Occurrences(Behind(ps, i, done, vars), x) ==
            Occurrences(Behind(ps, i + 1, done, vars), x) + if ps[i] == Name(x) then 1 else 0
  {
    assert Fits(Fill(ps[i], done, vars), x);
    OccurrencesAtPiece(ps, i, done, vars, x);
    MatchesItsOwn(ps, i, done, vars, x);
  }

  lemma {:induction false} OccurrencesExactly(ps: seq<Piece>, i: nat, done: set<string>, vars: map<string, string>,
                                              x: string)
    requires AllFit(ps, done, vars, x) && i <= |ps| && Untouched(ps, done, vars, x)
    requires Captured(ps, vars.Keys)
    ensures Occurrences(Behind(ps, i, done, vars), x) == Named(ps, x, i)
    decreases |ps| - i
  {
    if i < |ps| {
      OccurrencesExactly(ps, i + 1, done, vars, x);
      OccurrencesAtUntouched(ps, i, done, vars, x);
    }
  }

  // ---- Values that let a clash show ----

  /** The value of k is d, that of m is one letter, and all others are empty. */
  function Telling(keys: set<string>, k: string, d: string, m: string): map<string, string> {
    map n | n in keys :: if n == k then d else if n == m then "z" else ""
  }

  lemma TellingValues(keys: set<string>, k: string, d: string, m: string)
    requires NamesOnly(keys) && forall i :: 0 <= i < |d| ==> IsDigit(d[i])
    ensures var vars := Telling(keys, k, d, m);
            && vars.Keys == keys && ValuesFree(vars)
            && forall n :: n in vars ==> Count(vars[n], 'z') == if n == m && n != k then 1 else 0
  {
    CountNone(d, 'z');
  }

  /** Behind a name there is no digit while all values filled in are empty. */
  lemma {:induction false} NoDigitBehind(ps: seq<Piece>, i: nat, done: set<string>, vars: map<string, string>)
    requires Tokenized(ps) && Captured(ps, vars.Keys) && NamesOnly(vars.Keys)
    requires 0 < i <= |ps| && ps[i - 1].Name? && forall n :: n in done && n in vars ==> vars[n] == ""
    ensures var rest := Behind(ps, i, done, vars); rest != "" ==> !IsDigit(rest[0])
    decreases |ps| - i
  {
    if i < |ps| && ps[i].Name? && ps[i].name in done {
      NoDigitBehind(ps, i + 1, done, vars);
      assert Behind(ps, i, done, vars) == Behind(ps, i + 1, done, vars);
    }
  }

  lemma EmptyUntouched(ps: seq<Piece>, done: set<string>, vars: map<string, string>, x: string)
    requires Tokenized(ps) && Captured(ps, vars.Keys) && NamesOnly(vars.Keys)
    requires x in vars && VisitedBefore(done, x, vars.Keys) && forall n :: n in done && n in vars ==> vars[n] == ""
    ensures Untouched(ps, done, vars, x)
  {
    forall i | 0 <= i < |ps| && ps[i].Name? && ps[i].name !in done && ps[i].name != x
      ensures !(x <= ps[i].name + Behind(ps, i + 1, done, vars))
    {
      if x <= ps[i].name + Behind(ps, i + 1, done, vars) {
        MatchGoesOn(ps[i].name, Behind(ps, i + 1, done, vars), x);
        NoDigitBehind(ps, i + 1, done, vars);
      }
    }
  }

  // ---- Orders ----

  lemma HasGreatest(keys: set<string>, rank: string -> int) returns (g: string)
    requires keys != {}
    ensures g in keys && forall n :: n in keys ==> rank(n) <= rank(g)
    decreases keys
  {
    var one := Sorting.Member(keys);
    var rest := keys - {one};
    assert forall n :: n in keys ==> n == one || n in rest;
    g := one;
    if rest != {} {
      var h := HasGreatest(rest, rank);
      g := if rank(h) > rank(one) then h else one;
    }
  }

  /** Some order of the keys by falling rank. */
  lemma OrderBy(keys: set<string>, rank: string -> int) returns (names: seq<string>)
    ensures forall n :: n in names <==> n in keys
    ensures forall a, b :: 0 <= a < b < |names| ==> rank(names[a]) >= rank(names[b]) && names[a] != names[b]
    decreases keys
  {
    names := [];
    if keys != {} {
      var g := HasGreatest(keys, rank);
      var rest := OrderBy(keys - {g}, rank);
      names := [g] + rest;
      forall a, b | 0 <= a < b < |names| ensures rank(names[a]) >= rank(names[b]) && names[a] != names[b] {
        assert names[b] == rest[b - 1] && rest[b - 1] in rest;
        assert a > 0 ==> names[a] == rest[a - 1];
      }
      forall n ensures n in names <==> n in keys {
        assert n in names <==> n == g || n in rest;
      }
    }
  }

  /** Longer names first, among names of one length first and then second. */
  function Rank(first: string, second: string): string -> int {
    n => 3 * |n| + if n == first then 2 else if n == second then 1 else 0
  }

  /** A visiting order with first before second, and both before others of their length. */
  lemma OrderWith(vars: map<string, string>, first: string, second: string) returns (names: seq<string>)
    requires "" !in vars
    ensures VisitingOrder(names, vars) && Known(names, vars)
    ensures forall a, b :: 0 <= a < b < |names| ==> Rank(first, second)(names[a]) >= Rank(first, second)(names[b])
  {
    var rank := Rank(first, second);
    names := OrderBy(vars.Keys, rank);
    forall a, b | 0 <= a < b < |names| ensures |names[a]| >= |names[b]| && names[a] != names[b] {
      assert rank(names[a]) >= rank(names[b]);
    }
    forall i | 0 <= i < |names| ensures names[i] in vars && names[i] != "" {
      assert names[i] in names;
    }
  }

  lemma IndexIn(names: seq<string>, n: string) returns (j: nat)
    requires n in names
    ensures j < |names| && names[j] == n
  {
    j :| 0 <= j < |names| && names[j] == n;
  }

  // ---- Counting over a whole run ----

  /** Letters that no value brings in stay as many. */
  lemma {:induction false} CountSteady(t: string, names: seq<string>, a: nat, b: nat, vars: map<string, string>,
                                       c: char)
    requires Known(names, vars) && a <= b <= |names|
    requires forall j :: a <= j < b ==> Free(names[j], c) && Count(vars[names[j]], c) == 0
    ensures Count(Expand(t, names[..b], vars), c) == Count(Expand(t, names[..a], vars), c)
  {
    if a < b {
      CountSteady(t, names, a, b - 1, vars, c);
      ExpandSnoc(t, names, b - 1, vars);
      CountReplaced(Expand(t, names[..b - 1], vars), names[b - 1], vars[names[b - 1]], c);
    }
  }

  /** The letter that only the value of m has is counted once for every m that is found. */
  lemma CountRun(t: string, names: seq<string>, j: nat, vars: map<string, string>, c: char)
    requires Known(names, vars) && j < |names|
    requires forall i :: 0 <= i < |names| ==> Free(names[i], c) && Count(vars[names[i]], c) == if i == j then 1 else 0
    ensures Count(Expand(t, names, vars), c) == Count(t, c) + Occurrences(Expand(t, names[..j], vars), names[j])
  {
    CountSteady(t, names, 0, j, vars, c);
    assert names[..0] == [];
    ExpandSnoc(t, names, j, vars);
    CountReplaced(Expand(t, names[..j], vars), names[j], vars[names[j]], c);
    CountSteady(t, names, j + 1, |names|, vars, c);
    assert names[..|names|] == names;
  }

  lemma CountPiece(p: Piece, vars: map<string, string>, m: string, c: char)
    requires p.Name? ==> p.name in vars && Free(p.name, c) && Count(vars[p.name], c) == if p.name == m then 1 else 0
    ensures Fill(p, {}, vars) == p
    ensures Count(PieceText(Fill(p, vars.Keys, vars)), c) == Count(PieceText(p), c) + if p == Name(m) then 1 else 0
  {
    if p.Name? {
      CountNone(p.name, c);
    }
  }

  /** In simultaneous substitution it is counted once for every m in the template. */
  lemma {:induction false} CountSubstituted(ps: seq<Piece>, i: nat, vars: map<string, string>, m: string, c: char)
    requires i <= |ps| && Captured(ps, vars.Keys) && m in vars
    requires forall n :: n in vars ==> Free(n, c) && Count(vars[n], c) == if n == m then 1 else 0
    ensures Count(Behind(ps, i, vars.Keys, vars), c) == Count(Behind(ps, i, {}, vars), c) + Named(ps, m, i)
    decreases |ps| - i
  {
    if i < |ps| {
      var p := ps[i];
      CountSubstituted(ps, i + 1, vars, m, c);
      CountPiece(p, vars, m, c);
      CountConcat(PieceText(Fill(p, vars.Keys, vars)), Behind(ps, i + 1, vars.Keys, vars), c);
      CountConcat(PieceText(p), Behind(ps, i + 1, {}, vars), c);
    }
  }

  lemma CountSimultaneous(t: string, vars: map<string, string>, m: string, c: char)
    requires Captured(Tokens(t), vars.Keys) && m in vars
    requires forall n :: n in vars ==> Free(n, c) && Count(vars[n], c) == if n == m then 1 else 0
    ensures Count(Substituted(Tokens(t), vars), c) == Count(t, c) + Named(Tokens(t), m, 0)
  {
    var ps := Tokens(t);
    TokensRender(t);
    assert ps[0..] == ps;
    NothingFilled(ps, 0, vars);
    EverythingFilled(ps, 0, vars.Keys, vars);
    CountSubstituted(ps, 0, vars, m, c);
  }

  // ---- A clash shows ----

  lemma {:induction false} NameFits(ps: seq<Piece>, i: nat)
    requires i < |ps| && ps[i].Name?
    ensures |ps[i].name| <= |Rendered(ps)|
  {
    if i > 0 {
      NameFits(ps[1..], i - 1);
    }
  }

  /** No clash completes a name longer than m. */
  ghost predicate Longest(ps: seq<Piece>, keys: set<string>, m: string) {
    forall j, x :: Clash(ps, keys, j, x) ==> |x| <= |m|
  }

  lemma LongestClash(ps: seq<Piece>, keys: set<string>, i: int, m: string) returns (j: int, x: string)
    requires Clash(ps, keys, i, m)
    ensures Clash(ps, keys, j, x) && Longest(ps, keys, x)
    decreases |Rendered(ps)| - |m|
  {
    j, x := i, m;
    if !Longest(ps, keys, m) {
      var a, y :| Clash(ps, keys, a, y) && |y| > |m|;
      NameFits(ps, a + 1);
      j, x := LongestClash(ps, keys, a, y);
    }
  }

  /** What the value of the second name must be to complete the first to m. */
  function Missing(ps: seq<Piece>, i: int, m: string): string
    requires 0 <= i < |ps| && ps[i].Name? && |ps[i].name| <= |m|
  {
    m[|ps[i].name|..]
  }

  function ClashValues(ps: seq<Piece>, keys: set<string>, i: int, m: string): map<string, string>
    requires Clash(ps, keys, i, m)
  {
    Telling(keys, ps[i + 1].name, Missing(ps, i, m), m)
  }

  lemma ClashValuesTell(ps: seq<Piece>, keys: set<string>, i: int, m: string)
    requires NamesOnly(keys) && Captured(ps, keys) && Clash(ps, keys, i, m)
    ensures var vars := ClashValues(ps, keys, i, m);
            && vars.Keys == keys && ValuesFree(vars) && "" !in vars
            && (forall n :: n in vars && n != ps[i + 1].name && n != m ==> vars[n] == "")
            && forall n :: n in vars ==> Free(n, 'z') && Count(vars[n], 'z') == if n == m then 1 else 0
  {
    var d := Missing(ps, i, m);
    assert IsName(m);
    forall a | 0 <= a < |d| ensures IsDigit(d[a]) {
      assert d[a] == m[|ps[i].name| + a];
    }
    TellingValues(keys, ps[i + 1].name, d, m);
  }

  /** Once the second name is filled in, m matches at the first. */
  lemma ClashMatches(ps: seq<Piece>, keys: set<string>, i: int, m: string, done: set<string>)
    requires NamesOnly(keys) && Captured(ps, keys) && Clash(ps, keys, i, m)
    requires ps[i + 1].name in done && VisitedBefore(done, m, keys)
    ensures var vars := ClashValues(ps, keys, i, m);
            var p := Fill(ps[i], done, vars);
            p == ps[i] && p.name != m && m <= p.name + Behind(ps, i + 1, done, vars)
  {
    var vars, n := ClashValues(ps, keys, i, m), ps[i].name;
    assert n !in done;
    assert Behind(ps, i + 1, done, vars) == vars[ps[i + 1].name] + Behind(ps, i + 2, done, vars);
    assert m == n + m[|n|..];
  }

  lemma InPrefix(names: seq<string>, k: nat, n: string)
    requires k <= |names|
    ensures n in Members(names[..k]) <==> exists a :: 0 <= a < k && names[a] == n
  {
    if n in Members(names[..k]) {
      var a :| 0 <= a < k && names[..k][a] == n;
      assert names[a] == n;
    }
    if a :| 0 <= a < k && names[a] == n {
      assert names[..k][a] == n;
    }
  }

  /** Up to the second name of a clash, and before m, only empty values are filled in. */
  lemma EmptyUpTo(ps: seq<Piece>, keys: set<string>, i: int, m: string, names: seq<string>, b: nat)
    requires Tokenized(ps) && NamesOnly(keys) && Captured(ps, keys) && Clash(ps, keys, i, m)
    requires VisitingOrder(names, ClashValues(ps, keys, i, m)) && b < |names|
    requires forall c :: 0 <= c < b ==> names[c] != ps[i + 1].name && names[c] != m
    ensures Untouched(ps, Members(names[..b]), ClashValues(ps, keys, i, m), names[b])
  {
    var vars, done := ClashValues(ps, keys, i, m), Members(names[..b]);
    ClashValuesTell(ps, keys, i, m);
    OrderVisits(names, b, vars);
    NotDoneYet(names, b, vars);
    forall n | n in done && n in vars ensures vars[n] == "" {
      InPrefix(names, b, n);
    }
    EmptyUntouched(ps, done, vars, names[b]);
  }

  /** Between the second name of a clash and m only longer names than m are visited. */
  lemma LongerBetween(vars: map<string, string>, k: string, m: string, names: seq<string>, a: nat, b: nat, j: nat)
    requires m != k && a < b < j < |names| && names[a] == k && names[j] == m
    requires VisitingOrder(names, vars)
    requires forall c, e :: 0 <= c < e < |names| ==> Rank(k, m)(names[c]) >= Rank(k, m)(names[e])
    ensures |m| < |names[b]| <= |k|
  {
    assert names[a] != names[b] && names[b] != names[j];
    assert Rank(k, m)(names[a]) >= Rank(k, m)(names[b]) >= Rank(k, m)(names[j]);
  }

  /** If no clash completes a longer name, or m is as long as the second name, every name
      visited before m is replaced without touching another. */
  lemma UntouchedBefore(ps: seq<Piece>, keys: set<string>, i: int, m: string, names: seq<string>, a: nat, b: nat,
                        j: nat)
    requires Tokenized(ps) && NamesOnly(keys) && Captured(ps, keys) && Clash(ps, keys, i, m)
    requires Longest(ps, keys, m) || |m| == |ps[i + 1].name|
    requires var vars, k := ClashValues(ps, keys, i, m), ps[i + 1].name;
             && VisitingOrder(names, vars) && a < j < |names| && b < j && names[a] == k && names[j] == m
             && forall c, e :: 0 <= c < e < |names| ==> Rank(k, m)(names[c]) >= Rank(k, m)(names[e])
    ensures Untouched(ps, Members(names[..b]), ClashValues(ps, keys, i, m), names[b])
  {
    var vars, k := ClashValues(ps, keys, i, m), ps[i + 1].name;
    if b <= a {
      EmptyUpTo(ps, keys, i, m, names, b);
    } else {
      ClashValuesTell(ps, keys, i, m);
      OrderVisits(names, b, vars);
      NotDoneYet(names, b, vars);
      LongerBetween(vars, k, m, names, a, b, j);
      NoClashUntouched(ps, Members(names[..b]), vars, names[b]);
    }
  }

  lemma SecondFirst(vars: map<string, string>, k: string, m: string, names: seq<string>) returns (a: nat, j: nat)
    requires k in vars && m in vars && m != k && |m| <= |k| && VisitingOrder(names, vars)
    requires forall c, e :: 0 <= c < e < |names| ==> Rank(k, m)(names[c]) >= Rank(k, m)(names[e])
    ensures a < j < |names| && names[a] == k && names[j] == m
  {
    a := IndexIn(names, k);
    j := IndexIn(names, m);
    assert Rank(k, m)(k) > Rank(k, m)(m);
  }

  lemma OnlyHere(vars: map<string, string>, m: string, names: seq<string>, j: nat, c: char)
    requires VisitingOrder(names, vars) && Known(names, vars) && j < |names| && names[j] == m
    requires forall n :: n in vars ==> Free(n, c) && Count(vars[n], c) == if n == m then 1 else 0
    ensures forall i :: 0 <= i < |names| ==> Free(names[i], c) && Count(vars[names[i]], c) == if i == j then 1 else 0
  {
  }

  /** In an order that visits the second name first, m is found once too often. */
  lemma ClashShows(t: string, keys: set<string>, i: int, m: string) returns (names: seq<string>)
    requires NamesOnly(keys) && Captured(Tokens(t), keys) && Clash(Tokens(t), keys, i, m)
    requires Longest(Tokens(t), keys, m) || |m| == |Tokens(t)[i + 1].name|
    ensures var vars := ClashValues(Tokens(t), keys, i, m);
            && VisitingOrder(names, vars) && Known(names, vars)
            && Count(Expand(t, names, vars), 'z') > Count(t, 'z') + Named(Tokens(t), m, 0)
  {
    var ps := Tokens(t);
    var vars, k := ClashValues(ps, keys, i, m), ps[i + 1].name;
    ClashValuesTell(ps, keys, i, m);
    TokensTokenized(t);
    TokensRender(t);
    names := OrderWith(vars, k, m);
    var a, j := SecondFirst(vars, k, m, names);
    forall b | 0 <= b < j ensures Untouched(ps, Members(names[..b]), vars, names[b]) {
      UntouchedBefore(ps, keys, i, m, names, a, b, j);
    }
    EachUntouched(ps, names, j, vars);
    ExpandFills(ps, names, j, vars);
    FoundTooOften(ps, keys, i, m, names, a, j);
    OnlyHere(vars, m, names, j, 'z');
    CountRun(t, names, j, vars, 'z');
  }

  lemma FoundTooOften(ps: seq<Piece>, keys: set<string>, i: int, m: string, names: seq<string>, a: nat, j: nat)
    requires Tokenized(ps) && NamesOnly(keys) && Captured(ps, keys) && Clash(ps, keys, i, m)
    requires VisitingOrder(names, ClashValues(ps, keys, i, m))
    requires a < j < |names| && names[a] == ps[i + 1].name && names[j] == m
    ensures Occurrences(Behind(ps, 0, Members(names[..j]), ClashValues(ps, keys, i, m)), m) > Named(ps, m, 0)
  {
    var vars, done := ClashValues(ps, keys, i, m), Members(names[..j]);
    ClashValuesTell(ps, keys, i, m);
    OrderVisits(names, j, vars);
    InPrefix(names, j, ps[i + 1].name);
    PiecesFit(ps, done, vars, m);
    ClashMatches(ps, keys, i, m, done);
    OccurrencesAtLeast(ps, 0, done, vars, m, i);
  }

  /** In an order that visits m before the second name, it is found as often as it stands there. */
  lemma ClashHides(t: string, keys: set<string>, i: int, m: string) returns (names: seq<string>)
    requires NamesOnly(keys) && Captured(Tokens(t), keys) && Clash(Tokens(t), keys, i, m)
    requires |m| == |Tokens(t)[i + 1].name|
    ensures var vars := ClashValues(Tokens(t), keys, i, m);
            && VisitingOrder(names, vars) && Known(names, vars)
            && Count(Expand(t, names, vars), 'z') == Count(t, 'z') + Named(Tokens(t), m, 0)
  {
    var ps := Tokens(t);
    var vars, k := ClashValues(ps, keys, i, m), ps[i + 1].name;
    ClashValuesTell(ps, keys, i, m);
    TokensTokenized(t);
    TokensRender(t);
    names := OrderWith(vars, m, k);
    var j, a := SecondFirst(vars, m, k, names);
    forall b | 0 <= b <= j ensures Untouched(ps, Members(names[..b]), vars, names[b]) {
      EmptyUpTo(ps, keys, i, m, names, b);
    }
    EachUntouched(ps, names, j, vars);
    ExpandFills(ps, names, j, vars);
    OrderVisits(names, j, vars);
    PiecesFit(ps, Members(names[..j]), vars, m);
    OccurrencesExactly(ps, 0, Members(names[..j]), vars, m);
    OnlyHere(vars, m, names, j, 'z');
    CountRun(t, names, j, vars, 'z');
  }

  // ---- The exact conditions ----

  /** Whatever the values and whatever the order, the template is substituted simultaneously. */
  ghost predicate Simultaneous(t: string, keys: set<string>) {
    forall vars: map<string, string>, names: seq<string> ::
      vars.Keys == keys && ValuesFree(vars) && VisitingOrder(names, vars) && Known(names, vars) ==>
        Expand(t, names, vars) == Substituted(Tokens(t), vars)
  }

  /** For a template all of whose names are captured, that is so exactly if no two names
      stand side by side of which the second can complete the first to a third that is
      visited after it. */
  lemma SimultaneousExactly(t: string, keys: set<string>)
    requires NamesOnly(keys) && Captured(Tokens(t), keys)
    ensures Simultaneous(t, keys) <==> forall i, m :: !Clash(Tokens(t), keys, i, m)
  {
    if i, m :| Clash(Tokens(t), keys, i, m) {
      var j, x := LongestClash(Tokens(t), keys, i, m);
      var vars := ClashValues(Tokens(t), keys, j, x);
      ClashValuesTell(Tokens(t), keys, j, x);
      var names := ClashShows(t, keys, j, x);
      CountSimultaneous(t, vars, x, 'z');
    } else {
      forall vars: map<string, string>, names: seq<string> |
        vars.Keys == keys && ValuesFree(vars) && VisitingOrder(names, vars) && Known(names, vars)
        ensures Expand(t, names, vars) == Substituted(Tokens(t), vars)
      {
        SequentialIsSimultaneous(t, names, vars);
      }
    }
  }

  /** If the third name is as long as the second, map order decides: two orders that the
      program may take give different texts. */
  lemma OrderShows(t: string, keys: set<string>, i: int, m: string)
    returns (vars: map<string, string>, one: seq<string>, other: seq<string>)
    requires NamesOnly(keys) && Captured(Tokens(t), keys)
    requires Clash(Tokens(t), keys, i, m) && |m| == |Tokens(t)[i + 1].name|
    ensures vars.Keys == keys && ValuesFree(vars)
    ensures VisitingOrder(one, vars) && Known(one, vars) && VisitingOrder(other, vars) && Known(other, vars)
    ensures Expand(t, one, vars) != Expand(t, other, vars)
  {
    vars := ClashValues(Tokens(t), keys, i, m);
    ClashValuesTell(Tokens(t), keys, i, m);
    one := ClashShows(t, keys, i, m);
    other := ClashHides(t, keys, i, m);
  }
}
