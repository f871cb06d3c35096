/** Image rules: which rules cover an event, and what they capture from it
    (internal/model/rule.go). */
module Rules {
  import opened Text
  import opened Planning
  import opened Errors
  import opened Expansion
  import opened ManifestURL
  import opened SegmentExpansion

  const WILDCARD := "*"

  /** A tag pattern: a literal, or a regular expression as the predicate it decides. */
  datatype TagMatcher = Exactly(literal: string) | Expression(matches: string -> bool)

  /** The settings of a rule apart from its patterns of images and locations. */
  datatype Settings = Settings(env: string, allow: TagMatcher, deny: seq<TagMatcher>, writeImageManifest: Option<bool>)

  /** A compiled rule: the image pattern cut into its parts, and the location template. */
  datatype Rule = Rule(host: string, segments: seq<string>, tagPieces: seq<string>, manifestURL: string,
                       settings: Settings)

  predicate IsVariable(segment: string) { !Free(segment, '$') }

  predicate IsLiteral(segment: string) { segment != WILDCARD && !IsVariable(segment) }

  /** The number of literal segments: how specific a pattern is. */
  function Literals(segments: seq<string>): nat {
    if segments == [] then 0
    else Literals(segments[..|segments| - 1]) + if IsLiteral(segments[|segments| - 1]) then 1 else 0
  }

  /** Equally many segments, every literal one equal. */
  predicate Fits(segments: seq<string>, repository: seq<string>) {
    |repository| == |segments| && forall i :: 0 <= i < |segments| && IsLiteral(segments[i]) ==>
        segments[i] == repository[i]
  }

  predicate Covers(rule: Rule, event: Event) {
    event.host != "" && event.host == rule.host && Fits(rule.segments, SplitPath(event.repository))
  }

  method Match(rule: Rule, event: Event) returns (weight: nat, ok: bool)
    ensures ok <==> Covers(rule, event)
    ensures ok ==> weight == Literals(rule.segments)
  {
    if event.host == "" || event.host != rule.host {
      return 0, false;
    }
    var repository := SplitPath(event.repository);
    if |repository| != |rule.segments| {
      return 0, false;
    }
    weight, ok := MatchSegments(rule.segments, repository);
  }

  method MatchSegments(segments: seq<string>, repository: seq<string>) returns (weight: nat, ok: bool)
    requires |repository| == |segments|
    ensures ok <==> Fits(segments, repository)
    ensures ok ==> weight == Literals(segments)
  {
    weight := 0;
    for i := 0 to |segments|
      invariant weight == Literals(segments[..i])
      invariant forall j :: 0 <= j < i && IsLiteral(segments[j]) ==> segments[j] == repository[j]
    {
      assert segments[..i + 1][..i] == segments[..i];
      var segment := segments[i];
      if segment == WILDCARD || IsVariable(segment) {
        continue;
      }
      if segment != repository[i] {
        return 0, false;
      }
      weight := weight + 1;
    }
    assert segments[..|segments|] == segments;
    ok := true;
  }

  /** The places of a pattern that hold neither the wildcard nor a variable. */
  function LiteralPlaces(segments: seq<string>): set<int> {
    set i | 0 <= i < |segments| && segments[i] != "*" && '$' !in segments[i]
  }

  /** The weight of a pattern is the number of these places. */
  lemma {:induction false} LiteralsCounted(segments: seq<string>)
    ensures Literals(segments) == |LiteralPlaces(segments)|
  {
    if segments != [] {
      var n := |segments| - 1;
      LiteralsCounted(segments[..n]);
      assert LiteralPlaces(segments) ==
             LiteralPlaces(segments[..n]) + if IsLiteral(segments[n]) then {n} else {};
    }
  }

  /** A pattern covers the segments of the image that differ from it only in such places
      where it has the wildcard or a variable. */
  lemma CoversExactly(rule: Rule, event: Event)
    ensures Covers(rule, event) <==>
            && event.host != "" && event.host == rule.host
            && |SplitPath(event.repository)| == |rule.segments|
            && forall i :: 0 <= i < |rule.segments| ==>
                 rule.segments[i] == "*" || '$' in rule.segments[i]
                     || rule.segments[i] == SplitPath(event.repository)[i]
  {
  }

  /** Of two rules that cover an event, one with a literal wherever the other has one, and
      with one more, is more specific: the other is not among the most specific ones. */
  lemma MoreLiteralsWin(rules: seq<Rule>, event: Event, w: int, general: Rule, special: Rule)
    requires special in rules && Covers(special, event) && AtMostSpecific(rules, event, w)
    requires LiteralPlaces(general.segments) < LiteralPlaces(special.segments)
    ensures general !in Covering(rules, event, w)
  {
    LiteralsCounted(general.segments);
    LiteralsCounted(special.segments);
    SmallerSet(LiteralPlaces(general.segments), LiteralPlaces(special.segments));
    CoveringHas(rules, event, w, general);
    var i :| 0 <= i < |rules| && rules[i] == special;
    assert Literals(rules[i].segments) <= w;
  }

  lemma SmallerSet(a: set<int>, b: set<int>)
    requires a < b
    ensures |a| < |b|
  {
    assert |b - a| > 0 && |b| == |b - a| + |a| by {
      assert b == (b - a) + a;
    }
  }

  lemma {:induction false} CoveringHas(rules: seq<Rule>, event: Event, w: int, rule: Rule)
    ensures rule in Covering(rules, event, w) <==>
            rule in rules && Covers(rule, event) && Literals(rule.segments) == w
  {
    if rules != [] {
      CoveringHas(rules[..|rules| - 1], event, w, rule);
      assert rules == rules[..|rules| - 1] + [rules[|rules| - 1]];
    }
  }

  /** The rules stand in the order of their declaration, each as often as it is declared. */
  lemma {:induction false} CoveringKeepsOrder(rules: seq<Rule>, event: Event, w: int) returns (at: seq<nat>)
    ensures |at| == |Covering(rules, event, w)|
    ensures forall i :: 0 <= i < |at| ==> at[i] < |rules| && rules[at[i]] == Covering(rules, event, w)[i]
    ensures forall i, j :: 0 <= i < j < |at| ==> at[i] < at[j]
    ensures forall k :: 0 <= k < |rules| && Covers(rules[k], event) && Literals(rules[k].segments) == w ==> k in at
  {
    at := [];
    if rules != [] {
      var n := |rules| - 1;
      at := CoveringKeepsOrder(rules[..n], event, w);
      forall k | 0 <= k < n && Covers(rules[k], event) && Literals(rules[k].segments) == w ensures k in at {
        assert rules[..n][k] == rules[k];
      }
      if Covers(rules[n], event) && Literals(rules[n].segments) == w {
        at := at + [n];
      }
    }
  }

  /** The rules that cover the event with w literal segments, in declaration order. */
  function Covering(rules: seq<Rule>, event: Event, w: int): seq<Rule> {
    if rules == [] then []
    else
      var last := rules[|rules| - 1];
      Covering(rules[..|rules| - 1], event, w) +
      if Covers(last, event) && Literals(last.segments) == w then [last] else []
  }

  /** No rule covers the event more specifically than w. */
  predicate AtMostSpecific(rules: seq<Rule>, event: Event, w: int) {
    forall i :: 0 <= i < |rules| && Covers(rules[i], event) ==> Literals(rules[i].segments) <= w
  }

  lemma {:induction false} NoneCovering(rules: seq<Rule>, event: Event, w: int, v: int)
    requires AtMostSpecific(rules, event, w) && w < v
    ensures Covering(rules, event, v) == []
  {
    if rules != [] {
      NoneCovering(rules[..|rules| - 1], event, w, v);
    }
  }

  lemma {:induction false} SomeCovering(rules: seq<Rule>, event: Event, w: int, i: nat)
    requires i < |rules| && Covers(rules[i], event) && Literals(rules[i].segments) == w
    ensures rules[i] in Covering(rules, event, w)
  {
    if i < |rules| - 1 {
      SomeCovering(rules[..|rules| - 1], event, w, i);
    }
  }

  predicate NoneCovers(rules: seq<Rule>, event: Event) { forall i :: 0 <= i < |rules| ==> !Covers(rules[i], event) }

  /** ms are the most specific of the rules that cover the event, and w is how specific. */
  ghost predicate AreBest(rules: seq<Rule>, event: Event, w: int, ms: seq<Rule>) {
    && ms == Covering(rules, event, w) && AtMostSpecific(rules, event, w)
    && if ms == [] then w == -1 else w >= 0
  }

  lemma CoveringSnoc(rules: seq<Rule>, rule: Rule, event: Event, w: int)
    ensures Covering(rules + [rule], event, w) ==
            Covering(rules, event, w) + if Covers(rule, event) && Literals(rule.segments) == w then [rule] else []
  {
    assert (rules + [rule])[..|rules|] == rules;
  }

  lemma AtMostSnoc(rules: seq<Rule>, rule: Rule, event: Event, w: int, v: int)
    requires AtMostSpecific(rules, event, w) && w <= v && (Covers(rule, event) ==> Literals(rule.segments) <= v)
    ensures AtMostSpecific(rules + [rule], event, v)
  {
    var after := rules + [rule];
    forall i | 0 <= i < |after| && Covers(after[i], event) ensures Literals(after[i].segments) <= v {
      assert i < |rules| ==> after[i] == rules[i];
    }
  }

  /** What becomes of the best rules when one more is looked at. */
  lemma BestNext(rules: seq<Rule>, rule: Rule, event: Event, w: int, ms: seq<Rule>)
    requires AreBest(rules, event, w, ms)
    ensures var v := Literals(rule.segments);
            if !Covers(rule, event) || v < w then AreBest(rules + [rule], event, w, ms)
            else AreBest(rules + [rule], event, v, if v > w then [rule] else ms + [rule])
  {
    var v := Literals(rule.segments);
    CoveringSnoc(rules, rule, event, w);
    if !Covers(rule, event) || v <= w {
      AtMostSnoc(rules, rule, event, w, w);
      assert Covering(rules, event, w) + [] == Covering(rules, event, w);
    } else {
      AtMostSnoc(rules, rule, event, w, v);
      CoveringSnoc(rules, rule, event, v);
      NoneCovering(rules, event, w, v);
      assert [] + [rule] == [rule];
    }
  }

  lemma BestOfAll(rules: seq<Rule>, event: Event, w: int, ms: seq<Rule>)
    requires AreBest(rules, event, w, ms)
    ensures ms == [] <==> NoneCovers(rules, event)
  {
    if NoneCovers(rules, event) && w >= 0 {
      NoneCovering(rules, event, -1, w);
    }
  }

  /** The covering rules with the most literal segments, ties in declaration order; none
      exactly when no rule covers the event. */
  method Matches(rules: seq<Rule>, event: Event) returns (r: Option<seq<Rule>>, ghost best: int)
    ensures r.None? <==> NoneCovers(rules, event)
    ensures r.Some? ==> r.value == Covering(rules, event, best) != [] && AtMostSpecific(rules, event, best)
  {
    var bestWeight := -1;
    var matches: seq<Rule> := [];
    for i := 0 to |rules|
      invariant AreBest(rules[..i], event, bestWeight, matches)
    {
      BestNext(rules[..i], rules[i], event, bestWeight, matches);
      assert rules[..i + 1] == rules[..i] + [rules[i]];
      var weight, ok := Match(rules[i], event);
      if !ok || weight < bestWeight {
        continue;
      }
      if weight > bestWeight {
        bestWeight := weight;
        matches := [];
      }
      matches := matches + [rules[i]];
    }
    assert rules[..|rules|] == rules;
    BestOfAll(rules, event, bestWeight, matches);
    best := bestWeight;
    r := if |matches| == 0 then None else Some(matches);
  }

  // ---- ValidateTag ----

  predicate IsEmptyMatcher(m: TagMatcher) { m.Exactly? && m.literal == "" }

  /** An empty deny entry would reject every image whose tag is empty. */
  function WithoutEmpty(ms: seq<TagMatcher>): (r: seq<TagMatcher>)
    ensures forall i :: 0 <= i < |r| ==> !IsEmptyMatcher(r[i])
  {
    if ms == [] then [] else (if IsEmptyMatcher(ms[0]) then [] else [ms[0]]) + WithoutEmpty(ms[1..])
  }

  predicate MatchesTag(m: TagMatcher, tag: string) {
    match m case Exactly(literal) => literal == tag case Expression(matches) => matches(tag)
  }

  predicate Allowed(settings: Settings, tag: string) {
    IsEmptyMatcher(settings.allow) || MatchesTag(settings.allow, tag)
  }

  predicate Denied(settings: Settings, tag: string) {
    exists i :: 0 <= i < |settings.deny| && MatchesTag(settings.deny[i], tag)
  }

  function TagError(settings: Settings, tag: string): Option<Error> {
    if !Allowed(settings, tag) then Some({ImageTagNotAllowed})
    else if Denied(settings, tag) then Some({ImageTagDenied})
    else None
  }

  method ValidateTag(settings: Settings, tag: string) returns (r: Option<Error>)
    ensures r == TagError(settings, tag)
  {
    if !IsEmptyMatcher(settings.allow) && !MatchesTag(settings.allow, tag) {
      return Some({ImageTagNotAllowed});
    }
    for i := 0 to |settings.deny|
      invariant forall j :: 0 <= j < i ==> !MatchesTag(settings.deny[j], tag)
    {
      if MatchesTag(settings.deny[i], tag) {
        return Some({ImageTagDenied});
      }
    }
    r := None;
  }

  /** A pattern that is empty allows every tag; a tag is refused by the allow pattern before
      any deny pattern is looked at. */
  lemma TagErrorExactly(settings: Settings, tag: string)
    ensures TagError(settings, tag) == Some({ImageTagNotAllowed}) <==>
            match settings.allow
            case Exactly(literal) => literal != "" && literal != tag
            case Expression(matches) => !matches(tag)
    ensures TagError(settings, tag) != Some({ImageTagNotAllowed}) ==>
              (TagError(settings, tag) == Some({ImageTagDenied}) <==>
               exists i :: 0 <= i < |settings.deny| &&
                           if settings.deny[i].Exactly? then settings.deny[i].literal == tag
                           else settings.deny[i].matches(tag))
    ensures TagError(settings, tag) in {None, Some({ImageTagNotAllowed}), Some({ImageTagDenied})}
  {
    assert ImageTagNotAllowed in {ImageTagNotAllowed} && ImageTagNotAllowed !in {ImageTagDenied};
    forall i | 0 <= i < |settings.deny|
      ensures MatchesTag(settings.deny[i], tag) <==>
              if settings.deny[i].Exactly? then settings.deny[i].literal == tag else settings.deny[i].matches(tag)
    {
    }
  }

  /** Of the configured deny patterns the empty ones deny nothing, not even an empty tag. */
  lemma {:induction false} EmptyDenyIsIgnored(settings: Settings, deny: seq<TagMatcher>, tag: string)
    ensures Denied(settings.(deny := WithoutEmpty(deny)), tag) <==>
            exists i :: 0 <= i < |deny| &&
                        if deny[i].Exactly? then deny[i].literal != "" && deny[i].literal == tag
                        else deny[i].matches(tag)
  {
    if deny != [] {
      EmptyDenyIsIgnored(settings, deny[1..], tag);
      var rest, all := WithoutEmpty(deny[1..]), WithoutEmpty(deny);
      assert all == (if IsEmptyMatcher(deny[0]) then [] else [deny[0]]) + rest;
      if i :| 0 <= i < |rest| && MatchesTag(rest[i], tag) {
        assert all[i + |all| - |rest|] == rest[i];
      }
      if i :| 0 <= i < |all| && MatchesTag(all[i], tag) {
        assert i >= |all| - |rest| ==> all[i] == rest[i - (|all| - |rest|)];
      }
      assert !IsEmptyMatcher(deny[0]) ==> all[0] == deny[0];
      forall i | 0 <= i < |deny[1..]| ensures deny[1..][i] == deny[i + 1] {
      }
      if i :| 0 < i < |deny| && MatchesTag(deny[i], tag) && !IsEmptyMatcher(deny[i]) {
        assert deny[1..][i - 1] == deny[i];
      }
    }
  }

  predicate WritesImageManifest(settings: Settings) {
    settings.writeImageManifest.None? || settings.writeImageManifest.value
  }

  // ---- Captures ----

  datatype Binding = Binding(name: string, value: string)

  function SegmentBindings(segments: seq<string>, repository: seq<string>): (bs: seq<Binding>)
    requires |repository| == |segments|
  {
    if segments == [] then []
    else
      var k := |segments| - 1;
      SegmentBindings(segments[..k], repository[..k]) +
      if IsVariable(segments[k]) then [Binding(segments[k], repository[k])] else []
  }

  predicate HasPieces(tagPieces: seq<string>, pieces: seq<string>) {
    forall i :: 0 <= i < |tagPieces| && IsVariable(tagPieces[i]) ==> i < |pieces|
  }

  function PieceBindings(tagPieces: seq<string>, pieces: seq<string>): (bs: seq<Binding>)
    requires HasPieces(tagPieces, pieces)
  {
    if tagPieces == [] then []
    else
      var k := |tagPieces| - 1;
      PieceBindings(tagPieces[..k], pieces) +
      if IsVariable(tagPieces[k]) then [Binding(tagPieces[k], pieces[k])] else []
  }

  /** A later binding of a name replaces an earlier one. */
  function AsMap(bs: seq<Binding>): map<string, string> {
    if bs == [] then map[] else AsMap(bs[..|bs| - 1])[bs[|bs| - 1].name := bs[|bs| - 1].value]
  }

  function Bindings(rule: Rule, event: Event): Option<seq<Binding>> {
    var repository, pieces := SplitPath(event.repository), Split(event.tag, '.');
    if |repository| != |rule.segments| || !HasPieces(rule.tagPieces, pieces) then None
    else Some(SegmentBindings(rule.segments, repository) + PieceBindings(rule.tagPieces, pieces))
  }

  method Variables(rule: Rule, event: Event) returns (r: Option<map<string, string>>)
    ensures r == match Bindings(rule, event) case None => None case Some(bs) => Some(AsMap(bs))
  {
    var repository := SplitPath(event.repository);
    if |repository| != |rule.segments| {
      return None;
    }
    var variables := CaptureSegments(rule.segments, repository);
    ghost var bs := SegmentBindings(rule.segments, repository);
    assert bs + [] == bs;
    if |rule.tagPieces| == 0 {
      return Some(variables);
    }
    var pieces := Split(event.tag, '.');
    r := CapturePieces(rule.tagPieces, pieces, variables, bs);
  }

  lemma AsMapSnoc(bs: seq<Binding>, name: string, value: string)
    ensures AsMap(bs + [Binding(name, value)]) == AsMap(bs)[name := value]
  {
    assert (bs + [Binding(name, value)])[..|bs|] == bs;
  }

  lemma NextSegment(segments: seq<string>, repository: seq<string>, i: nat)
    requires |repository| == |segments| && i < |segments|
    ensures var before := AsMap(SegmentBindings(segments[..i], repository[..i]));
            AsMap(SegmentBindings(segments[..i + 1], repository[..i + 1])) ==
            if IsVariable(segments[i]) then before[segments[i] := repository[i]] else before
  {
    var earlier := SegmentBindings(segments[..i], repository[..i]);
    assert segments[..i + 1][..i] == segments[..i] && repository[..i + 1][..i] == repository[..i];
    assert earlier + [] == earlier;
    AsMapSnoc(earlier, segments[i], repository[i]);
  }

  lemma NextPiece(bs: seq<Binding>, tagPieces: seq<string>, pieces: seq<string>, i: nat)
    requires i < |tagPieces| && HasPieces(tagPieces[..i], pieces) && (IsVariable(tagPieces[i]) ==> i < |pieces|)
    ensures HasPieces(tagPieces[..i + 1], pieces)
    ensures var before := AsMap(bs + PieceBindings(tagPieces[..i], pieces));
            AsMap(bs + PieceBindings(tagPieces[..i + 1], pieces)) ==
            if IsVariable(tagPieces[i]) then before[tagPieces[i] := pieces[i]] else before
  {
    var next := tagPieces[..i + 1];
    assert next[..i] == tagPieces[..i];
    forall j | 0 <= j <= i && IsVariable(next[j]) ensures j < |pieces| {
      assert j < i ==> tagPieces[..i][j] == next[j];
    }
    var earlier := PieceBindings(tagPieces[..i], pieces);
    if IsVariable(tagPieces[i]) {
      var b := Binding(tagPieces[i], pieces[i]);
      AsMapSnoc(bs + earlier, tagPieces[i], pieces[i]);
      assert bs + earlier + [b] == bs + (earlier + [b]);
    } else {
      assert earlier + [] == earlier;
    }
  }

  method CaptureSegments(segments: seq<string>, repository: seq<string>) returns (variables: map<string, string>)
    requires |repository| == |segments|
    ensures variables == AsMap(SegmentBindings(segments, repository))
  {
    variables := map[];
    for i := 0 to |segments|
      invariant variables == AsMap(SegmentBindings(segments[..i], repository[..i]))
    {
      NextSegment(segments, repository, i);
      if IsVariable(segments[i]) {
        variables := variables[segments[i] := repository[i]];
      }
    }
    assert segments[..|segments|] == segments && repository[..|segments|] == repository;
  }

  method CapturePieces(tagPieces: seq<string>, pieces: seq<string>, before: map<string, string>, ghost bs: seq<Binding>)
    returns (r: Option<map<string, string>>)
    requires before == AsMap(bs)
    ensures r == if HasPieces(tagPieces, pieces) then Some(AsMap(bs + PieceBindings(tagPieces, pieces))) else None
  {
    var variables := before;
    assert bs + [] == bs;
    for i := 0 to |tagPieces|
      invariant HasPieces(tagPieces[..i], pieces)
      invariant variables == AsMap(bs + PieceBindings(tagPieces[..i], pieces))
    {
      var piece := tagPieces[i];
      if !IsVariable(piece) {
        NextPiece(bs, tagPieces, pieces, i);
        continue;
      }
      if i >= |pieces| {
        return None;
      }
      NextPiece(bs, tagPieces, pieces, i);
      variables := variables[piece := pieces[i]];
    }
    assert tagPieces[..|tagPieces|] == tagPieces;
    r := Some(variables);
  }

  /** The binding that a map keeps of a name bound once. */
  lemma {:induction false} BoundOnce(bs: seq<Binding>, b: Binding)
    requires b in bs && forall c :: c in bs && c.name == b.name ==> c == b
    ensures b.name in AsMap(bs) && AsMap(bs)[b.name] == b.value
  {
    var k := |bs| - 1;
    assert bs == bs[..k] + [bs[k]];
    if bs[k].name != b.name {
      BoundOnce(bs[..k], b);
    }
  }

  lemma {:induction false} BoundFrom(bs: seq<Binding>, n: string)
    requires n in AsMap(bs)
    ensures Binding(n, AsMap(bs)[n]) in bs
  {
    var k := |bs| - 1;
    if bs[k].name != n {
      BoundFrom(bs[..k], n);
    }
  }

  lemma {:induction false} SegmentBound(segments: seq<string>, repository: seq<string>, b: Binding)
    requires |repository| == |segments|
    ensures b in SegmentBindings(segments, repository) <==>
            exists i :: 0 <= i < |segments| && IsVariable(segments[i]) && b == Binding(segments[i], repository[i])
  {
    if segments != [] {
      var k := |segments| - 1;
      SegmentBound(segments[..k], repository[..k], b);
      assert forall i :: 0 <= i < k ==> segments[..k][i] == segments[i] && repository[..k][i] == repository[i];
    }
  }

  lemma {:induction false} PieceBound(tagPieces: seq<string>, pieces: seq<string>, b: Binding)
    requires HasPieces(tagPieces, pieces)
    ensures b in PieceBindings(tagPieces, pieces) <==>
            exists i :: 0 <= i < |tagPieces| && IsVariable(tagPieces[i]) && b == Binding(tagPieces[i], pieces[i])
  {
    if tagPieces != [] {
      var k := |tagPieces| - 1;
      PieceBound(tagPieces[..k], pieces, b);
      assert forall i :: 0 <= i < k ==> tagPieces[..k][i] == tagPieces[i];
    }
  }

  /** Every capture is a segment of the pushed repository or a piece of the pushed tag, in
      the place where the pattern has the name. */
  lemma CapturesAreTheirPlaces(rule: Rule, event: Event, n: string)
    requires Bindings(rule, event).Some? && n in AsMap(Bindings(rule, event).value)
    ensures var v := AsMap(Bindings(rule, event).value)[n];
            IsVariable(n) &&
            ((exists i :: 0 <= i < |rule.segments| && rule.segments[i] == n && SplitPath(event.repository)[i] == v) ||
             (exists i :: 0 <= i < |rule.tagPieces| && rule.tagPieces[i] == n &&
                          i < |Split(event.tag, '.')| && Split(event.tag, '.')[i] == v))
  {
    var repository, pieces := SplitPath(event.repository), Split(event.tag, '.');
    var b := Binding(n, AsMap(Bindings(rule, event).value)[n]);
    BoundFrom(Bindings(rule, event).value, n);
    SegmentBound(rule.segments, repository, b);
    PieceBound(rule.tagPieces, pieces, b);
  }

  // ---- Compiling a pattern ----

  /** strings.Cut. */
  function Cut(s: string, sep: char): (r: Option<(string, string)>)
    ensures r.None? <==> Free(s, sep)
    ensures r.Some? ==> r.value.0 + [sep] + r.value.1 == s && Free(r.value.0, sep)
  {
    if s == "" then None
    else if s[0] == sep then Some(("", s[1..]))
    else
      match Cut(s[1..], sep)
      case None => None
      case Some((a, b)) => Some(([s[0]] + a, b))
  }

  predicate SlashFree(parts: seq<string>) { forall i :: 0 <= i < |parts| ==> Free(parts[i], '/') }

  function SplitImagePattern(pattern: string): (r: (string, seq<string>, seq<string>))
    ensures Free(r.0, '/') && SlashFree(r.1) && SlashFree(r.2)
  {
    var parts := SplitPath(pattern);
    if parts == [] then ("", [], [])
    else
      var host, segments := parts[0], parts[1..];
      if segments == [] then (host, [], [])
      else
        var last := |segments| - 1;
        match Cut(segments[last], ':')
        case None => (host, segments, [])
        case Some((repository, tagPattern)) =>
          TagPiecesSlashFree(repository, tagPattern, segments[last]);
          (host, segments[..last] + [repository], Split(tagPattern, '.'))
  }

  /** The last segment with its tag pattern. */
  function WithTag(segments: seq<string>, tagPieces: seq<string>): seq<string> {
    if segments == [] || tagPieces == [] then segments
    else segments[..|segments| - 1] + [segments[|segments| - 1] + ":" + Join(tagPieces, ".")]
  }

  /** The parts are those of the pattern: host, segments, and behind the first colon of the
      last segment the tag pieces, which hold no dot. */
  lemma PatternIsItsParts(pattern: string)
    ensures var (host, segments, tagPieces) := SplitImagePattern(pattern);
            && (SplitPath(pattern) == if host == "" then [] else [host] + WithTag(segments, tagPieces))
            && (tagPieces != [] ==> segments != [] && Free(segments[|segments| - 1], ':'))
            && (tagPieces == [] && segments != [] ==> Free(segments[|segments| - 1], ':'))
            && forall i :: 0 <= i < |tagPieces| ==> Free(tagPieces[i], '.')
  {
    var parts := SplitPath(pattern);
    if parts != [] {
      assert !Blank(parts[0]);
      var segments := parts[1..];
      if segments != [] {
        CutComesBack(segments);
      }
    }
  }

  lemma CutComesBack(segments: seq<string>)
    requires segments != []
    ensures var last := |segments| - 1;
            match Cut(segments[last], ':')
            case None => true
            case Some((repository, tagPattern)) =>
              WithTag(segments[..last] + [repository], Split(tagPattern, '.')) == segments
  {
    var last := |segments| - 1;
    match Cut(segments[last], ':')
    case None =>
    case Some((repository, tagPattern)) =>
      JoinSplit(tagPattern, '.');
      var cut := segments[..last] + [repository];
      assert cut[..last] == segments[..last];
      assert segments == segments[..last] + [segments[last]];
  }

  lemma TagPiecesSlashFree(repository: string, tagPattern: string, segment: string)
    requires Free(segment, '/') && repository + [':'] + tagPattern == segment
    ensures Free(repository, '/') && SlashFree(Split(tagPattern, '.'))
  {
    forall i | 0 <= i < |repository| ensures repository[i] != '/' {
      assert segment[i] == repository[i];
    }
    forall i | 0 <= i < |tagPattern| ensures tagPattern[i] != '/' {
      assert segment[|repository| + 1 + i] == tagPattern[i];
    }
    SplitInside(tagPattern);
  }

  lemma {:induction false} SplitInside(s: string)
    requires Free(s, '/')
    ensures SlashFree(Split(s, '.'))
  {
    if s != "" {
      SplitInside(s[1..]);
    }
  }

  /** A rule as compiling leaves it, apart from its tag patterns. */
  predicate Compiled(parse: string -> Option<URL>, rule: Rule) {
    && rule.host != "" && rule.segments != []
    && SlashFree(rule.segments) && SlashFree(rule.tagPieces)
    && !Blank(rule.manifestURL) && Usable(parse(rule.manifestURL))
  }

  method CompileRule(parse: string -> Option<URL>, imagePattern: string, manifestURL: string, settings: Settings)
    returns (r: Option<Rule>)
    ensures var (host, segments, tagPieces) := SplitImagePattern(imagePattern);
            var rule := Rule(host, segments, tagPieces, manifestURL, settings.(deny := WithoutEmpty(settings.deny)));
            r == if Compiled(parse, rule) then Some(rule) else None
  {
    var (host, segments, tagPieces) := SplitImagePattern(imagePattern);
    if host == "" || |segments| == 0 || Blank(manifestURL) {
      return None;
    }
    var location := ParseManifestURL(parse, manifestURL);
    if location.Err? {
      return None;
    }
    r := Some(Rule(host, segments, tagPieces, manifestURL, settings.(deny := WithoutEmpty(settings.deny))));
  }

  // ---- Location ----

  /** A capture that is no climb, no wildcard and no path of its own. */
  predicate SafeValue(v: string) { !IsDots(v) && Free(v, '/') && Plain(v) }

  predicate AllSafe(vars: map<string, string>) { forall n :: n in vars ==> SafeValue(vars[n]) }

  /** The location for one order of visiting the captures. */
  function LocationFor(parse: string -> Option<URL>, template: string, names: seq<string>,
                       vars: map<string, string>): Result<Location, Error>
    requires Known(names, vars)
  {
    var expanded := Expand(template, names, vars);
    if AllSafe(vars) && !IsVariable(expanded) && Usable(parse(expanded))
    then Ok(LocationOf(SplitPath(parse(expanded).value.path)))
    else Err({IncompleteRule})
  }

  lemma NamesAreVariables(rule: Rule, event: Event, vars: map<string, string>)
    requires Bindings(rule, event).Some? && vars == AsMap(Bindings(rule, event).value)
    ensures forall n :: n in vars ==> IsVariable(n) && n != ""
    ensures SlashFree(rule.segments) && SlashFree(rule.tagPieces) ==> forall n :: n in vars ==> IsCapture(n)
  {
    forall n | n in vars
      ensures IsVariable(n) && n != "" && (SlashFree(rule.segments) && SlashFree(rule.tagPieces) ==> IsCapture(n)) {
      CapturesAreTheirPlaces(rule, event, n);
    }
  }

  method Location(parse: string -> Option<URL>, rule: Rule, event: Event)
    returns (r: Result<Location, Error>, ghost names: seq<string>)
    ensures match Bindings(rule, event)
            case None => r == Err({IncompleteRule})
            case Some(bs) =>
              VisitingOrder(names, AsMap(bs)) && Known(names, AsMap(bs))
                  && r == LocationFor(parse, rule.manifestURL, names, AsMap(bs))
  {
    names := [];
    var captured := Variables(rule, event);
    if captured.None? {
      return Err({IncompleteRule}), names;
    }
    var variables := captured.value;
    NamesAreVariables(rule, event, variables);
    var expanded;
    expanded, names := ExpandVariables(rule.manifestURL, variables);
    if exists n :: n in variables && !SafeValue(variables[n]) {
      return Err({IncompleteRule}), names;
    }
    if IsVariable(expanded) {
      return Err({IncompleteRule}), names;
    }
    r := ParseManifestURL(parse, expanded);
  }

  /** A location is confined to the site and to its repository, whatever was captured: no
      capture climbs, holds a slash or a wildcard, nothing is left to substitute, and the
      directory has plain segments and one recursive wildcard at most. */
  lemma LocationIsConfined(parse: string -> Option<URL>, template: string, names: seq<string>,
                           vars: map<string, string>, l: Location)
    requires Known(names, vars) && LocationFor(parse, template, names, vars) == Ok(l)
    ensures forall n :: n in vars ==> vars[n] != "." && vars[n] != ".." && '/' !in vars[n]
    ensures forall n, c :: n in vars && c in {'\\', '*', '?', '[', ']'} ==> c !in vars[n]
    ensures '$' !in Expand(template, names, vars)
    ensures var url := parse(Expand(template, names, vars));
            && url.Some? && url.value.scheme == "https" && url.value.host == "github.com"
            && !url.value.hasUser && url.value.query == "" && url.value.fragment == ""
    ensures l.repositoryURL == "https://github.com/" + l.owner + "/" + l.repository
    ensures var segments := if l.dir == "" then [] else Split(l.dir, '/');
            && (forall i :: 0 <= i < |segments| ==> segments[i] != "" && segments[i] != "." && segments[i] != "..")
            && (forall i, c :: 0 <= i < |segments| && segments[i] != "**" && c in {'\\', '*', '?', '[', ']'} ==>
                  c !in segments[i])
            && forall i, j :: 0 <= i < j < |segments| ==> segments[i] != "**" || segments[j] != "**"
  {
    var expanded := Expand(template, names, vars);
    forall n | n in vars ensures SafeValue(vars[n]) {
    }
    var segments := SplitPath(parse(expanded).value.path);
    var below := segments[2..];
    assert l.dir == Join(below, "/");
    OneStarAtMost(below);
    if below != [] {
      SplitJoin(below, '/');
      forall i | 0 <= i < |below| ensures below[i] != "" {
        assert !Blank(segments[i + 2]);
      }
      NonEmptyJoin(below);
    }
  }

  lemma NonEmptyJoin(parts: seq<string>)
    requires parts != [] && parts[0] != ""
    ensures Join(parts, "/") != ""
  {
  }

  lemma {:induction false} OneStarAtMost(segments: seq<string>)
    requires Stars(segments) <= 1
    ensures forall i, j :: 0 <= i < j < |segments| ==> segments[i] != "**" || segments[j] != "**"
  {
    if segments != [] {
      var n := |segments| - 1;
      OneStarAtMost(segments[..n]);
      if i :| 0 <= i < n && segments[i] == "**" {
        assert segments[..n][i] == "**";
        StarsCount(segments[..n], i);
      }
      assert forall i, j :: 0 <= i < j < n ==> segments[..n][i] == segments[i] && segments[..n][j] == segments[j];
    }
  }

  lemma {:induction false} StarsCount(segments: seq<string>, i: nat)
    requires i < |segments| && segments[i] == "**"
    ensures Stars(segments) >= 1
  {
    var n := |segments| - 1;
    if i < n {
      StarsCount(segments[..n], i);
    }
  }

  /** For a compiled rule and visible captures that a URL holds literally, the location is
      the template with each segment expanded in its place; the only failures left are an
      unsafe capture and a name the pattern does not capture. */
  lemma LocationOfOrdinaryCaptures(parse: string -> Option<URL>, rule: Rule, event: Event, t: string,
                                   names: seq<string>, vars: map<string, string>)
    requires ReadsLiterally(parse) && Compiled(parse, rule)
    requires rule.manifestURL == SITE + t && Every(t, Literally)
    requires Bindings(rule, event).Some? && vars == AsMap(Bindings(rule, event).value) && Known(names, vars)
    requires forall n :: n in vars ==> !Blank(vars[n]) && Every(vars[n], Literally)
    ensures LocationFor(parse, rule.manifestURL, names, vars) ==
            if AllSafe(vars) && !IsVariable(Expand(rule.manifestURL, names, vars))
            then Ok(LocationOf(ExpandEach(SplitPath(t), names, vars)))
            else Err({IncompleteRule})
  {
    TemplateSegments(parse, t);
    if AllSafe(vars) {
      NamesAreVariables(rule, event, vars);
      assert AllOrdinary(vars) && Captures(vars);
      LocationIsTheExpandedTemplate(parse, t, names, vars);
    }
  }

  lemma TemplateSegments(parse: string -> Option<URL>, t: string)
    requires ReadsLiterally(parse) && Every(t, Literally) && Usable(parse(SITE + t))
    ensures |SplitPath(t)| >= 2 && ValidManifestPath(SplitPath(t)[2..])
  {
    SplitPathFromRoot(t);
  }

  // ---- What a matched rule says ----

  /** l is what some order of visiting the captures gives. */
  ghost predicate IsLocation(parse: string -> Option<URL>, rule: Rule, event: Event, l: Result<Location, Error>) {
    match Bindings(rule, event)
    case None => l == Err({IncompleteRule})
    case Some(bs) => exists names :: VisitingOrder(names, AsMap(bs)) && Known(names, AsMap(bs)) &&
                                     l == LocationFor(parse, rule.manifestURL, names, AsMap(bs))
  }

  ghost predicate MatchedFrom(parse: string -> Option<URL>, rule: Rule, event: Event, m: Matched) {
    && m.tagError == TagError(rule.settings, event.tag)
    && IsLocation(parse, rule, event, m.location)
    && m.env == rule.settings.env && m.wantsManifest == WritesImageManifest(rule.settings)
  }

  ghost predicate AllMatched(parse: string -> Option<URL>, rules: seq<Rule>, event: Event, ms: seq<Matched>) {
    |ms| == |rules| && forall i :: 0 <= i < |rules| ==> MatchedFrom(parse, rules[i], event, ms[i])
  }

  /** The matched rules with their tag checked and their location expanded. */
  method MatchRules(parse: string -> Option<URL>, rules: seq<Rule>, event: Event)
    returns (ms: Option<seq<Matched>>, ghost best: int)
    ensures ms.None? <==> NoneCovers(rules, event)
    ensures ms.Some? ==>
              AtMostSpecific(rules, event, best) && Covering(rules, event, best) != [] &&
              AllMatched(parse, Covering(rules, event, best), event, ms.value)
  {
    var matches;
    matches, best := Matches(rules, event);
    if matches.None? {
      return None, best;
    }
    var list: seq<Matched> := [];
    for i := 0 to |matches.value|
      invariant |list| == i
      invariant forall j :: 0 <= j < i ==> MatchedFrom(parse, matches.value[j], event, list[j])
    {
      var rule := matches.value[i];
      var m := Describe(parse, rule, event);
      list := list + [m];
    }
    ms := Some(list);
  }

  method Describe(parse: string -> Option<URL>, rule: Rule, event: Event) returns (m: Matched)
    ensures MatchedFrom(parse, rule, event, m)
  {
    var tagError := ValidateTag(rule.settings, event.tag);
    var location;
    ghost var names;
    location, names := Location(parse, rule, event);
    m := Matched(tagError, location, rule.settings.env, WritesImageManifest(rule.settings));
  }
}
