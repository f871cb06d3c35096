/** Normalising the labels of an image (internal/model/label_value.go). */
module Labels {
  import opened Text

  const TEXT_LENGTH := 512
  const HANDLE_LENGTH := 39
  const RUNE_ERROR := '\U{FFFD}'

  // ---- sanitizeLabelText ----

  /** A rune that is kept: printable, and neither a space nor the replacement character. */
  predicate Visible(isPrint: char -> bool, c: char) { c != RUNE_ERROR && isPrint(c) && !IsSpace(c) }

  /** The text cut at every rune that is not visible. */
  function Runs(isPrint: char -> bool, s: string): (r: seq<string>)
    ensures |r| > 0
  {
    if s == "" then [""]
    else
      var rest := Runs(isPrint, s[1..]);
      if Visible(isPrint, s[0]) then [[s[0]] + rest[0]] + rest[1..] else [""] + rest
  }

  /** The maximal runs of visible runes, with one space between them. */
  function Spaced(isPrint: char -> bool, s: string): string { Join(NonEmpty(Runs(isPrint, s)), " ") }

  function Shortened(s: string, limit: nat): string {
    if |s| <= limit then s else TrimRight(s[..limit], c => c == ' ')
  }

  function Longer(rs: seq<string>, c: char, visible: bool): seq<string>
    requires rs != []
  {
    if visible then rs[..|rs| - 1] + [rs[|rs| - 1] + [c]] else rs + [""]
  }

  lemma LongerHead(x: char, rest: seq<string>, c: char, visible: bool)
    requires rest != []
    ensures var more := Longer(rest, c, visible);
            Longer([[x] + rest[0]] + rest[1..], c, visible) == [[x] + more[0]] + more[1..]
  {
    if |rest| == 1 && visible {
      assert [x] + (rest[0] + [c]) == [x] + rest[0] + [c];
    }
  }

  lemma {:induction false} RunsSnoc(isPrint: char -> bool, s: string, c: char)
    ensures Runs(isPrint, s + [c]) == Longer(Runs(isPrint, s), c, Visible(isPrint, c))
  {
    if s == "" {
      assert s + [c] == [c] && [c][1..] == "" && [c] + "" == "" + [c] == [c];
      assert Runs(isPrint, "") == [""];
    } else {
      var rest, visible := Runs(isPrint, s[1..]), Visible(isPrint, c);
      assert (s + [c])[0] == s[0] && (s + [c])[1..] == s[1..] + [c];
      RunsSnoc(isPrint, s[1..], c);
      if Visible(isPrint, s[0]) {
        LongerHead(s[0], rest, c, visible);
      }
    }
  }

  lemma {:induction false} NonEmptySnoc(xs: seq<string>, x: string)
    ensures NonEmpty(xs + [x]) == NonEmpty(xs) + if x == "" then [] else [x]
  {
    if xs != [] {
      assert (xs + [x])[0] == xs[0] && (xs + [x])[1..] == xs[1..] + [x];
      NonEmptySnoc(xs[1..], x);
    } else {
      assert [x][1..] == [];
    }
  }

  lemma {:induction false} JoinSnoc(ws: seq<string>, w: string)
    ensures Join(ws + [w], " ") == if ws == [] then w else Join(ws, " ") + " " + w
  {
    if |ws| > 1 {
      JoinSnoc(ws[1..], w);
      assert (ws + [w])[1..] == ws[1..] + [w];
    } else if |ws| == 1 {
      assert (ws + [w])[1..] == [w];
    }
  }

  lemma {:induction false} LastRun(isPrint: char -> bool, s: string)
    ensures var rs := Runs(isPrint, s); rs[|rs| - 1] == "" <==> s == "" || !Visible(isPrint, s[|s| - 1])
  {
    if s != "" {
      var k := |s| - 1;
      assert s == s[..k] + [s[k]];
      RunsSnoc(isPrint, s[..k], s[k]);
    }
  }

  lemma {:induction false} NonEmptyAll(xs: seq<string>)
    ensures forall i :: 0 <= i < |NonEmpty(xs)| ==> NonEmpty(xs)[i] != ""
  {
    if xs != [] {
      NonEmptyAll(xs[1..]);
    }
  }

  /** What one more rune does to the spaced text. */
  lemma SpacedSnoc(isPrint: char -> bool, s: string, c: char)
    ensures var t := Spaced(isPrint, s);
            Spaced(isPrint, s + [c]) ==
            if !Visible(isPrint, c) then t
            else if t != "" && s != "" && !Visible(isPrint, s[|s| - 1]) then t + " " + [c]
            else t + [c]
  {
    var rs := Runs(isPrint, s);
    var before, last := rs[..|rs| - 1], rs[|rs| - 1];
    assert rs == before + [last];
    RunsSnoc(isPrint, s, c);
    LastRun(isPrint, s);
    if Visible(isPrint, c) {
      GrowLast(before, last, c);
    } else {
      NonEmptySnoc(rs, "");
      assert NonEmpty(rs) + [] == NonEmpty(rs);
    }
  }

  lemma GrowLast(before: seq<string>, last: string, c: char)
    ensures var t := Join(NonEmpty(before + [last]), " ");
            Join(NonEmpty(before + [last + [c]]), " ") == if last == "" && t != "" then t + " " + [c] else t + [c]
  {
    var ws := NonEmpty(before);
    NonEmptySnoc(before, last);
    NonEmptySnoc(before, last + [c]);
    JoinSnoc(ws, last + [c]);
    if last == "" {
      assert ws + [] == ws && "" + [c] == [c];
      NonEmptyAll(before);
    } else {
      JoinSnoc(ws, last);
      assert Join(ws, " ") + " " + (last + [c]) == Join(ws, " ") + " " + last + [c];
    }
  }

  method SanitizeLabelText(isPrint: char -> bool, value: string) returns (r: string)
    ensures r == Shortened(Spaced(isPrint, value), TEXT_LENGTH)
  {
    var builder := "";
    var pendingSpace := false;
    SpacedEmpty(isPrint);
    for i := 0 to |value|
      invariant builder == Spaced(isPrint, value[..i])
      invariant pendingSpace <==> i > 0 && !Visible(isPrint, value[i - 1]) && builder != ""
    {
      var char_ := value[i];
      assert value[..i + 1] == value[..i] + [char_];
      SpacedSnoc(isPrint, value[..i], char_);
      if char_ == RUNE_ERROR || !isPrint(char_) {
        pendingSpace := |builder| > 0;
      } else if IsSpace(char_) {
        pendingSpace := |builder| > 0;
      } else {
        if pendingSpace {
          builder := builder + [' '];
          pendingSpace := false;
        }
        builder := builder + [char_];
      }
    }
    assert value[..|value|] == value;
    r := TruncateRunes(builder, TEXT_LENGTH);
  }

  method TruncateRunes(value: string, limit: nat) returns (r: string)
    ensures r == Shortened(value, limit)
  {
    if |value| <= limit {
      return value;
    }
    var count := 0;
    for index := 0 to |value|
      invariant count == index <= limit
    {
      if count == limit {
        return TrimRight(value[..index], c => c == ' ');
      }
      count := count + 1;
    }
    r := value;
  }

  /** Visible runes and single spaces between them. */
  ghost predicate Normal(isPrint: char -> bool, t: string) {
    && (forall i :: 0 <= i < |t| ==> Visible(isPrint, t[i]) || t[i] == ' ')
    && (t != "" ==> t[0] != ' ' && t[|t| - 1] != ' ')
    && forall i :: 0 < i < |t| && t[i] == ' ' ==> t[i - 1] != ' '
  }

  lemma NormalSnoc(isPrint: char -> bool, t: string, sep: string, c: char)
    requires Normal(isPrint, t) && Visible(isPrint, c) && (sep == "" || (sep == " " && t != ""))
    ensures Normal(isPrint, t + sep + [c])
  {
    var u := t + sep + [c];
    assert c != ' ';
    forall i | 0 < i < |u| && u[i] == ' ' ensures u[i - 1] != ' ' {
      assert i < |t| || (i == |t| && sep == " " && u[i - 1] == t[|t| - 1]);
    }
  }

  lemma SpacedEmpty(isPrint: char -> bool)
    ensures Spaced(isPrint, "") == ""
  {
    assert NonEmpty([""]) == NonEmpty([""][1..]);
  }

  lemma {:induction false} SpacedIsNormal(isPrint: char -> bool, s: string)
    ensures Normal(isPrint, Spaced(isPrint, s))
  {
    if s == "" {
      SpacedEmpty(isPrint);
    } else {
      var k := |s| - 1;
      var t := Spaced(isPrint, s[..k]);
      assert s == s[..k] + [s[k]];
      SpacedIsNormal(isPrint, s[..k]);
      SpacedSnoc(isPrint, s[..k], s[k]);
      if Visible(isPrint, s[k]) {
        if t != "" {
          NormalSnoc(isPrint, t, " ", s[k]);
        }
        NormalSnoc(isPrint, t, "", s[k]);
        assert t + "" + [s[k]] == t + [s[k]];
      }
    }
  }

  lemma {:induction false} NormalIsSpaced(isPrint: char -> bool, t: string)
    requires Normal(isPrint, t)
    ensures Spaced(isPrint, t) == t
    decreases |t|
  {
    if t == "" {
      SpacedEmpty(isPrint);
    } else {
      var k := |t| - 1;
      var prev := t[..k];
      assert t == prev + [t[k]];
      assert Visible(isPrint, t[k]);
      SpacedSnoc(isPrint, prev, t[k]);
      if k > 0 && t[k - 1] == ' ' {
        var prior := t[..k - 1];
        assert prev == prior + [' '];
        assert !Visible(isPrint, ' ');
        NormalIsSpaced(isPrint, prior);
        SpacedSnoc(isPrint, prior, ' ');
        assert Spaced(isPrint, prev) == prior != "";
      } else {
        NormalIsSpaced(isPrint, prev);
      }
    }
  }

  /** A text that is too long is cut at the limit, and behind its last rune there that is no space. */
  lemma ShortenedExactly(s: string, limit: nat)
    ensures |s| <= limit ==> Shortened(s, limit) == s
    ensures |s| > limit ==>
              var r := Shortened(s, limit);
              && |r| <= limit && r == s[..|r|] && (r != "" ==> r[|r| - 1] != ' ')
              && forall i :: |r| <= i < limit ==> s[i] == ' '
  {
    if |s| > limit {
      assert forall i :: 0 <= i < limit ==> s[..limit][i] == s[i];
    }
  }

  /** A label text is always in normal form and short enough, and the texts that are so
      already are exactly those left as they are. */
  lemma LabelTextIsNormalForm(isPrint: char -> bool, value: string)
    ensures var text := Shortened(Spaced(isPrint, value), TEXT_LENGTH);
            && Normal(isPrint, text) && |text| <= 512
            && Shortened(Spaced(isPrint, text), TEXT_LENGTH) == text
            && (text == value <==> Normal(isPrint, value) && |value| <= 512)
  {
    var text := Shortened(Spaced(isPrint, value), TEXT_LENGTH);
    SpacedIsNormal(isPrint, value);
    NormalIsSpaced(isPrint, text);
    if Normal(isPrint, value) {
      NormalIsSpaced(isPrint, value);
    }
  }

  // ---- sanitizeLabelHandle ----

  predicate IsAlphanumeric(c: char) { 'a' <= c <= 'z' || 'A' <= c <= 'Z' || '0' <= c <= '9' }

  predicate Alphanumeric(s: string) { forall i :: 0 <= i < |s| ==> IsAlphanumeric(s[i]) }

  /** Non-empty alphanumeric runs with single hyphens between them. */
  predicate IsHandle(s: string) {
    var runs := Split(s, '-');
    forall i :: 0 <= i < |runs| ==> runs[i] != "" && Alphanumeric(runs[i])
  }

  /** Alphanumerics and single hyphens, none at the end. */
  predicate Hyphenated(s: string) {
    && (forall i :: 0 <= i < |s| ==> IsAlphanumeric(s[i]) || s[i] == '-')
    && (s != "" ==> s[|s| - 1] != '-')
    && forall i :: 0 < i < |s| && s[i] == '-' ==> s[i - 1] != '-'
  }

  lemma {:induction false} HyphenatedRuns(s: string)
    ensures Hyphenated(s) <==>
            Alphanumeric(Split(s, '-')[0]) &&
            forall i :: 1 <= i < |Split(s, '-')| ==> Split(s, '-')[i] != "" && Alphanumeric(Split(s, '-')[i])
  {
    if s != "" {
      var c, rest := s[0], s[1..];
      var runs := Split(rest, '-');
      HyphenatedRuns(rest);
      HyphenatedCons(c, rest);
      assert s == [c] + rest;
      if c == '-' {
        assert Split(s, '-')[1..] == runs;
      } else {
        assert Split(s, '-')[1..] == runs[1..];
        assert Alphanumeric([c] + runs[0]) <==> IsAlphanumeric(c) && Alphanumeric(runs[0]) by {
          assert ([c] + runs[0])[1..] == runs[0];
        }
      }
    }
  }

  lemma HyphenatedCons(c: char, rest: string)
    ensures Hyphenated([c] + rest) <==>
            Hyphenated(rest) && if c == '-' then rest != "" && rest[0] != '-' else IsAlphanumeric(c)
  {
    var s := [c] + rest;
    assert s[0] == c && s[1..] == rest;
    assert forall i :: 0 <= i < |rest| ==> s[i + 1] == rest[i];
    if Hyphenated(s) {
      forall i | 0 < i < |rest| && rest[i] == '-' ensures rest[i - 1] != '-' {
        assert s[i + 1] == '-';
      }
      if rest != "" && c == '-' {
        assert rest[0] == s[1];
      }
      forall i | 0 <= i < |rest| ensures IsAlphanumeric(rest[i]) || rest[i] == '-' {
        assert IsAlphanumeric(s[i + 1]) || s[i + 1] == '-';
      }
    }
    if Hyphenated(rest) && if c == '-' then rest != "" && rest[0] != '-' else IsAlphanumeric(c) {
      forall i | 0 < i < |s| && s[i] == '-' ensures s[i - 1] != '-' {
        assert rest[i - 1] == '-';
      }
    }
  }

  lemma HandleByRuns(s: string)
    ensures IsHandle(s) <==> s != "" && s[0] != '-' && Hyphenated(s)
  {
    HyphenatedRuns(s);
  }

  /** The length the program checks is one in bytes; it is the same for the values that
      pass the check of the characters. */
  method SanitizeLabelHandle(value: string) returns (r: string)
    ensures r == if |TrimSpace(value)| <= 39 && IsHandle(TrimSpace(value)) then TrimSpace(value) else ""
  {
    var trimmed := TrimSpace(value);
    r := KeepHandle(trimmed);
  }

  method KeepHandle(value: string) returns (r: string)
    ensures r == if |value| <= HANDLE_LENGTH && IsHandle(value) then value else ""
  {
    HandleByRuns(value);
    if value == "" || |value| > HANDLE_LENGTH {
      return "";
    }
    var previousHyphen := false;
    for i := 0 to |value|
      invariant previousHyphen <==> i > 0 && value[i - 1] == '-'
      invariant i > 0 ==> value[0] != '-'
      invariant forall j :: 0 <= j < i ==> IsAlphanumeric(value[j]) || value[j] == '-'
      invariant forall j :: 0 < j < i && value[j] == '-' ==> value[j - 1] != '-'
    {
      var char_ := value[i];
      if IsAlphanumeric(char_) {
        previousHyphen := false;
      } else if char_ == '-' && i > 0 && !previousHyphen {
        previousHyphen := true;
      } else {
        return "";
      }
    }
    if previousHyphen {
      return "";
    }
    r := value;
  }
}
