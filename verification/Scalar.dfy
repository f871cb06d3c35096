/** Single-line YAML scalars: the writer and the token scanners of
    internal/infrastructure/manifest/kustomize/document.go, against the token
    grammar of YAML 1.2.2. */
module Scalar {
  import opened Text

  datatype Style = Plain | SingleQuoted | DoubleQuoted | OtherStyle

  /** What the YAML and Unicode libraries decide about a value or a rune. */
  datatype Library = Library(readsAsString: string -> bool, isPrint: char -> bool)

  /** No control character and no line break is printable. */
  ghost predicate Sound(lib: Library) {
    forall c :: lib.isPrint(c) ==> c >= ' ' && c != '\U{7F}' && !IsLineBreak(c)
  }

  predicate IsLineBreak(c: char) { c == '\n' || c == '\r' || c == '\U{85}' || c == '\U{2028}' || c == '\U{2029}' }

  // ---- Tokens as YAML defines them ----

  /** Section 5.3: the indicators no plain token starts with. */
  predicate IsIndicator(c: char) {
    c in {',', '[', ']', '{', '}', '#', '&', '*', '!', '|', '>', '\'', '"', '%', '@', '`'}
  }

  /** Section 7.3.3: one line, no outer blanks, no indicator in front, no blank before a '#'
      or behind a ':'. */
  predicate PlainToken(t: string) {
    && t != "" && !IsBlank(t[0]) && !IsBlank(t[|t| - 1]) && !IsIndicator(t[0])
    && (t[0] in {'-', '?', ':'} ==> |t| > 1 && !IsBlank(t[1]))
    && (forall i :: 0 <= i < |t| ==> !IsLineBreak(t[i]))
    && (forall i :: 0 < i < |t| && t[i] == '#' ==> !IsBlank(t[i - 1]))
    && forall i :: 0 <= i < |t| && t[i] == ':' ==> i + 1 < |t| && !IsBlank(t[i + 1])
  }

  /** The text between the quotes: an escape pair or any character that does not close the token. */
  predicate Body(b: string, quote: char) {
    if b == "" then true
    else if quote == '"' && b[0] == '\\' then |b| >= 2 && Body(b[2..], quote)
    else if b[0] == quote then quote == '\'' && |b| >= 2 && b[1] == quote && Body(b[2..], quote)
    else Body(b[1..], quote)
  }

  predicate Quoted(t: string, quote: char) {
    |t| >= 2 && t[0] == quote && t[|t| - 1] == quote && Body(t[1..|t| - 1], quote)
  }

  /** Section 7.3.2: a doubled quote stands for one quote. */
  function UnescapeSingle(b: string): string {
    if b == "" then ""
    else if |b| >= 2 && b[0] == '\'' && b[1] == '\'' then ['\''] + UnescapeSingle(b[2..])
    else [b[0]] + UnescapeSingle(b[1..])
  }

  /** Section 5.7: the one-letter escapes of the double-quoted style. */
  function LetterEscape(c: char): Option<char> {
    match c
    case '0' => Some('\0')
    case 'a' => Some('\U{07}')
    case 'b' => Some('\U{08}')
    case 't' => Some('\t')
    case '\t' => Some('\t')
    case 'n' => Some('\n')
    case 'v' => Some('\U{0B}')
    case 'f' => Some('\U{0C}')
    case 'r' => Some('\r')
    case 'e' => Some('\U{1B}')
    case ' ' => Some(' ')
    case '"' => Some('"')
    case '/' => Some('/')
    case '\\' => Some('\\')
    case 'N' => Some('\U{85}')
    case '_' => Some('\U{A0}')
    case 'L' => Some('\U{2028}')
    case 'P' => Some('\U{2029}')
    case _ => None
  }

  function HexWidth(c: char): nat {
    if c == 'x' then 2 else if c == 'u' then 4 else if c == 'U' then 8 else 0
  }

  function HexDigitValue(c: char): Option<nat> {
    if '0' <= c <= '9' then Some(c as int - '0' as int)
    else if 'a' <= c <= 'f' then Some(c as int - 'a' as int + 10)
    else if 'A' <= c <= 'F' then Some(c as int - 'A' as int + 10)
    else None
  }

  function HexValue(s: string): Option<nat> {
    if s == "" then Some(0)
    else
      match (HexValue(s[..|s| - 1]), HexDigitValue(s[|s| - 1]))
      case (Some(high), Some(low)) => Some(16 * high + low)
      case _ => None
  }

  predicate IsScalarValue(n: nat) { n < 0xD800 || 0xE000 <= n < 0x110000 }

  function Prepend(c: char, rest: Option<string>): Option<string> {
    if rest.None? then None else Some([c] + rest.value)
  }

  /** The value of a single-line double-quoted body. */
  function UnescapeDouble(b: string): Option<string>
    decreases |b|
  {
    if b == "" then Some("")
    else if b[0] == '"' || IsLineBreak(b[0]) then None
    else if b[0] != '\\' then Prepend(b[0], UnescapeDouble(b[1..]))
    else if |b| < 2 then None
    else if LetterEscape(b[1]).Some? then Prepend(LetterEscape(b[1]).value, UnescapeDouble(b[2..]))
    else
      var w := HexWidth(b[1]);
      if w == 0 || |b| < 2 + w then None
      else
        match HexValue(b[2..2 + w])
        case Some(n) => if IsScalarValue(n) then Prepend(n as char, UnescapeDouble(b[2 + w..])) else None
        case None => None
  }

  /** Token t of the given style stands for value. */
  predicate Encodes(style: Style, t: string, value: string) {
    match style
    case Plain => PlainToken(t) && value == t
    case SingleQuoted => Quoted(t, '\'') && value == UnescapeSingle(t[1..|t| - 1])
    case DoubleQuoted => Quoted(t, '"') && UnescapeDouble(t[1..|t| - 1]) == Some(value)
    case OtherStyle => false
  }

  /** What may follow a scalar on its line: blanks, then nothing or a comment after a space. */
  predicate Tail(rest: string) {
    var k := BlankRun(rest);
    k == |rest| || (k > 0 && rest[k - 1] == ' ' && rest[k] == '#')
  }

  /** The line carries value at column c in the given style. */
  ghost predicate Carries(line: string, c: int, style: Style, value: string) {
    exists e :: Token(line, c, e, style, value)
  }

  ghost predicate Token(line: string, c: int, e: int, style: Style, value: string) {
    0 <= c <= e <= |line| && Encodes(style, line[c..e], value) && Tail(line[e..])
  }

  ghost predicate Reads(line: string, c: int, value: string) {
    exists style :: Carries(line, c, style, value)
  }

  /** The line carries value at column c as a string: in quotes, or plain and taken for
      nothing else by the library. */
  ghost predicate ReadsString(lib: Library, line: string, c: int, value: string) {
    exists style :: Carries(line, c, style, value) && (style == Plain ==> lib.readsAsString(value))
  }

  // ---- Scanners ----

  predicate IsSpaceHash(s: string, i: int) { 0 <= i && i + 1 < |s| && s[i] == ' ' && s[i + 1] == '#' }

  function IndexSpaceHash(s: string): (r: Option<nat>)
    ensures r.Some? ==> IsSpaceHash(s, r.value) && forall i :: i < r.value ==> !IsSpaceHash(s, i)
    ensures r.None? ==> forall i :: !IsSpaceHash(s, i)
  {
    if |s| < 2 then None
    else if IsSpaceHash(s, 0) then Some(0)
    else
      var r := IndexSpaceHash(s[1..]);
      assert forall i :: i > 0 ==> (IsSpaceHash(s, i) <==> IsSpaceHash(s[1..], i - 1));
      if r.Some? then Some(r.value + 1) else None
  }

  function PlainTokenLength(rest: string): nat {
    var hash := IndexSpaceHash(rest);
    KeptLength(rest[..if hash.Some? then hash.value else |rest|], IsBlank)
  }

  /** Distance to just behind the closing quote, from a position inside the token. */
  ghost function Close(s: string, quote: char): Option<nat> {
    if s == "" then None
    else if quote == '"' && s[0] == '\\' then if |s| >= 2 then Shifted(2, Close(s[2..], quote)) else None
    else if s[0] != quote then Shifted(1, Close(s[1..], quote))
    else if quote == '\'' && |s| >= 2 && s[1] == quote then Shifted(2, Close(s[2..], quote))
    else Some(1)
  }

  ghost function Shifted(k: nat, r: Option<nat>): Option<nat> {
    if r.None? then None else Some(r.value + k)
  }

  lemma {:induction false} CloseIsToken(s: string, quote: char, n: nat)
    requires quote == '"' || quote == '\''
    ensures Close(s, quote) == Some(n) <==>
            && 0 < n <= |s| && Body(s[..n - 1], quote) && s[n - 1] == quote
            && (quote == '\'' && n < |s| ==> s[n] != quote)
  {
    if s != "" {
      var step := if quote == '"' && s[0] == '\\' then 2
                  else if s[0] != quote then 1
                  else if quote == '\'' && |s| >= 2 && s[1] == quote then 2 else 0;
      if 0 < step <= |s| {
        if n > step {
          CloseIsToken(s[step..], quote, n - step);
          if n <= |s| {
            assert s[..n - 1][step..] == s[step..][..n - step - 1];
          }
        } else {
          CloseIsToken(s[step..], quote, 0);
          assert Close(s[step..], quote) != Some(0);
        }
      } else if step == 0 && 1 < n <= |s| {
        assert s[..n - 1][0] == quote;
        assert n >= 3 ==> s[..n - 1][1] == s[1];
      }
    }
  }

  /** A well-formed quoted token ends at n. */
  ghost predicate QuotedEndsAt(rest: string, quote: char, n: nat) {
    2 <= n <= |rest| && Quoted(rest[..n], quote) && (quote == '\'' && n < |rest| ==> rest[n] != quote)
  }

  lemma CloseIsEnd(rest: string, quote: char, n: nat)
    requires quote == '"' || quote == '\''
    requires rest != "" && rest[0] == quote
    ensures QuotedEndsAt(rest, quote, n) <==> n > 0 && Close(rest[1..], quote) == Some(n - 1)
  {
    if 0 < n {
      CloseIsToken(rest[1..], quote, n - 1);
      if 2 <= n <= |rest| {
        assert rest[..n][1..n - 1] == rest[1..][..n - 2];
      }
    }
  }

  /** Where the token closes, seen from position i inside it. */
  ghost function CloseFrom(rest: string, quote: char, i: nat): Option<nat> {
    if i <= |rest| then Shifted(i, Close(rest[i..], quote)) else None
  }

  /** r is the one length at which a well-formed quoted token ends, if there is one. */
  ghost predicate OnlyEnd(rest: string, quote: char, r: Option<nat>) {
    forall n: nat :: QuotedEndsAt(rest, quote, n) <==> r == Some(n)
  }

  lemma CloseIsOnlyEnd(rest: string, quote: char)
    requires quote == '"' || quote == '\''
    requires rest != "" && rest[0] == quote
    ensures OnlyEnd(rest, quote, CloseFrom(rest, quote, 1))
  {
    forall n: nat ensures QuotedEndsAt(rest, quote, n) <==> CloseFrom(rest, quote, 1) == Some(n) {
      CloseIsEnd(rest, quote, n);
    }
  }

  lemma NoEndWithoutQuote(rest: string, quote: char)
    requires rest == "" || rest[0] != quote
    ensures OnlyEnd(rest, quote, None)
  {
  }

  /** One step of the scan. */
  lemma CloseStep(rest: string, quote: char, i: nat)
    requires i < |rest|
    ensures CloseFrom(rest, quote, i) ==
            if quote == '"' && rest[i] == '\\' then CloseFrom(rest, quote, i + 2)
            else if rest[i] != quote then CloseFrom(rest, quote, i + 1)
            else if quote == '\'' && i + 1 < |rest| && rest[i + 1] == quote then CloseFrom(rest, quote, i + 2)
            else Some(i + 1)
  {
    var s := rest[i..];
    assert s[1..] == rest[i + 1..];
    if |s| >= 2 {
      assert s[2..] == rest[i + 2..] && s[1] == rest[i + 1];
    }
  }

  /** Byte loop over a quoted token. */
  method QuotedTokenLength(rest: string, quote: char) returns (r: Option<nat>)
    requires quote == '"' || quote == '\''
    ensures OnlyEnd(rest, quote, r)
  {
    if |rest| == 0 || rest[0] != quote {
      NoEndWithoutQuote(rest, quote);
      return None;
    }
    CloseIsOnlyEnd(rest, quote);
    var i := 1;
    while i < |rest|
      invariant 1 <= i
      invariant CloseFrom(rest, quote, 1) == CloseFrom(rest, quote, i)
    {
      CloseStep(rest, quote, i);
      var c := rest[i];
      if c == '\\' {
        if quote == '"' {
          i := i + 1;
        }
      } else if c == quote {
        if quote == '\'' && i + 1 < |rest| && rest[i + 1] == '\'' {
          i := i + 2;
          continue;
        }
        return Some(i + 1);
      }
      i := i + 1;
    }
    return None;
  }

  /** The length of whatever token stands at the front of rest. */
  method ScalarTokenLength(rest: string, style: Style) returns (r: Option<nat>)
    ensures style == OtherStyle ==> r == None
    ensures r.Some? ==> r.value <= |rest|
    ensures style == Plain ==> r == Some(PlainTokenLength(rest))
    ensures forall e, value :: Token(rest, 0, e, style, value) ==> r == Some(e)
  {
    match style
    case SingleQuoted =>
      r := QuotedTokenLength(rest, '\'');
      forall e, value | Token(rest, 0, e, style, value) ensures r == Some(e) {
        assert rest[0..e] == rest[..e];
        assert QuotedEndsAt(rest, '\'', e);
      }
    case DoubleQuoted =>
      r := QuotedTokenLength(rest, '"');
      forall e, value | Token(rest, 0, e, style, value) ensures r == Some(e) {
        assert rest[0..e] == rest[..e];
        assert QuotedEndsAt(rest, '"', e);
      }
    case Plain =>
      r := Some(PlainTokenLength(rest));
      forall e, value | Token(rest, 0, e, style, value) ensures r == Some(e) {
        assert rest[0..e] == rest[..e] && rest == rest[..e] + rest[e..];
        PlainLengthOfToken(rest[..e], rest[e..]);
      }
    case OtherStyle =>
      r := None;
  }

  lemma NoSpaceHashBefore(t: string, rest: string, i: nat)
    requires PlainToken(t) && i + 1 < |t| + BlankRun(rest)
    ensures !IsSpaceHash(t + rest, i)
  {
    var s := t + rest;
    if i + 1 < |t| {
      assert s[i + 1] == t[i + 1] && s[i] == t[i];
    } else {
      assert s[i + 1] == rest[i + 1 - |t|];
    }
  }

  lemma FirstSpaceHash(t: string, rest: string)
    requires PlainToken(t) && Tail(rest)
    ensures var k := BlankRun(rest);
            IndexSpaceHash(t + rest) == if k == |rest| then None else Some(|t| + k - 1)
  {
    var s, k := t + rest, BlankRun(rest);
    var hash := IndexSpaceHash(s);
    if hash.Some? && hash.value + 1 < |t| + k {
      NoSpaceHashBefore(t, rest, hash.value);
      assert false;
    }
    if k < |rest| {
      assert s[|t| + k - 1] == ' ' by {
        assert s[|t| + k - 1] == rest[k - 1];
      }
      assert IsSpaceHash(s, |t| + k - 1);
    }
  }

  lemma PlainLengthOfToken(t: string, rest: string)
    requires PlainToken(t) && Tail(rest)
    ensures PlainTokenLength(t + rest) == |t|
  {
    FirstSpaceHash(t, rest);
    var hash := IndexSpaceHash(t + rest);
    var cut := (t + rest)[..if hash.Some? then hash.value else |t + rest|];
    var n := KeptLength(cut, IsBlank);
    assert cut[|t| - 1] == t[|t| - 1];
  }

  /** The scanner of plain scalars stops at a comment only behind a space: with a
      run of blanks that ends in a tab it swallows the '#'. */
  lemma PlainLengthBeforeComment(t: string, rest: string)
    requires PlainToken(t)
    requires 0 < BlankRun(rest) < |rest| && rest[BlankRun(rest)] == '#'
    ensures PlainTokenLength(t + rest) == |t| <==> rest[BlankRun(rest) - 1] == ' '
  {
    if rest[BlankRun(rest) - 1] == ' ' {
      PlainLengthOfToken(t, rest);
    } else {
      TabHidesComment(t, rest);
    }
  }

  lemma TabHidesComment(t: string, rest: string)
    requires PlainToken(t)
    requires 0 < BlankRun(rest) < |rest| && rest[BlankRun(rest)] == '#' && rest[BlankRun(rest) - 1] == '\t'
    ensures PlainTokenLength(t + rest) > |t|
  {
    var s, at := t + rest, |t| + BlankRun(rest);
    assert s[at] == rest[BlankRun(rest)] && s[at - 1] == rest[BlankRun(rest) - 1];
    var hash := IndexSpaceHash(s);
    if hash.Some? && hash.value < at {
      if hash.value + 1 < at {
        NoSpaceHashBefore(t, rest, hash.value);
      }
      assert false;
    }
    KeptReaches(s[..if hash.Some? then hash.value else |s|], at);
  }

  /** Where there is no token at all, none is measured. */
  lemma NoToken(rest: string)
    requires Tail(rest)
    ensures PlainTokenLength(rest) == 0
  {
    var k := BlankRun(rest);
    if k < |rest| {
      assert IsSpaceHash(rest, k - 1);
    }
  }

  /** In a file with CRLF line ends the scanner takes the carriage return, and the blanks
      in front of it, for part of a plain token, unless a comment stands in between. */
  lemma CarriageReturnIsSwallowed(t: string, rest: string)
    requires PlainToken(t) && Tail(rest)
    ensures PlainTokenLength(t + (rest + "\r")) == if BlankRun(rest) == |rest| then |t| + |rest| + 1 else |t|
  {
    if BlankRun(rest) < |rest| {
      BlankRunStays(rest, "\r");
      PlainLengthOfToken(t, rest + "\r");
    } else {
      BlanksAreSwallowed(t, rest);
    }
  }

  lemma {:induction false} BlankRunStays(s: string, more: string)
    requires BlankRun(s) < |s|
    ensures BlankRun(s + more) == BlankRun(s)
  {
    if IsBlank(s[0]) {
      assert (s + more)[1..] == s[1..] + more;
      BlankRunStays(s[1..], more);
    }
  }

  lemma BlanksAreSwallowed(t: string, blanks: string)
    requires PlainToken(t) && BlankRun(blanks) == |blanks|
    ensures PlainTokenLength(t + (blanks + "\r")) == |t| + |blanks| + 1
  {
    var line := t + (blanks + "\r");
    var hash := IndexSpaceHash(line);
    if hash.Some? {
      NoSpaceHashAt(t, blanks, hash.value);
      assert false;
    }
    assert line[..|line|] == line;
    KeptReaches(line, |line| - 1);
  }

  lemma NoSpaceHashAt(t: string, blanks: string, i: nat)
    requires PlainToken(t) && BlankRun(blanks) == |blanks|
    ensures !IsSpaceHash(t + (blanks + "\r"), i)
  {
    var line := t + (blanks + "\r");
    if i + 1 < |line| - 1 {
      BlankRunBehind(blanks, "\r");
      NoSpaceHashBefore(t, blanks + "\r", i);
    } else {
      assert line[|line| - 1] == '\r';
    }
  }

  lemma KeptReaches(s: string, i: nat)
    requires i < |s| && !IsBlank(s[i])
    ensures KeptLength(s, IsBlank) > i
  {
  }

  // ---- One token per position ----

  lemma PlainEndsOnce(line: string, c: int, e: int, f: int)
    requires 0 <= c <= e <= |line| && c <= f <= |line|
    requires PlainToken(line[c..e]) && Tail(line[e..]) && PlainToken(line[c..f]) && Tail(line[f..])
    ensures e == f
  {
    assert line[c..] == line[c..e] + line[e..] == line[c..f] + line[f..];
    PlainLengthOfToken(line[c..e], line[e..]);
    PlainLengthOfToken(line[c..f], line[f..]);
  }

  lemma QuotedEnd(line: string, quote: char, c: int, e: int)
    requires quote == '"' || quote == '\''
    requires 0 <= c <= e <= |line| && Quoted(line[c..e], quote) && Tail(line[e..])
    ensures Shifted(1, Close(line[c..][1..], quote)) == Some(e - c)
  {
    var rest := line[c..];
    assert rest[..e - c] == line[c..e] && rest[0] == line[c..e][0];
    assert e < |line| ==> rest[e - c] == line[e..][0];
    CloseIsEnd(rest, quote, e - c);
  }

  lemma TokenEndsOnce(line: string, c: int, e: int, f: int, style: Style, v: string, w: string)
    requires Token(line, c, e, style, v) && Token(line, c, f, style, w)
    ensures e == f
  {
    match style
    case Plain => PlainEndsOnce(line, c, e, f);
    case SingleQuoted =>
      QuotedEnd(line, '\'', c, e);
      QuotedEnd(line, '\'', c, f);
    case DoubleQuoted =>
      QuotedEnd(line, '"', c, e);
      QuotedEnd(line, '"', c, f);
  }

  lemma StyleOfToken(style: Style, t: string, value: string)
    requires Encodes(style, t, value)
    ensures t != ""
    ensures style == if t[0] == '"' then DoubleQuoted else if t[0] == '\'' then SingleQuoted else Plain
  {
  }

  lemma TokenAtFront(line: string, c: int, e: int, style: Style, value: string)
    requires Token(line, c, e, style, value)
    ensures Token(line[c..], 0, e - c, style, value)
  {
    var rest := line[c..];
    assert rest[0..e - c] == line[c..e];
    assert rest[e - c..] == line[e..];
  }

  lemma StyleAt(line: string, c: int, e: int, style: Style, value: string)
    requires Token(line, c, e, style, value)
    ensures c < |line| &&
            style == if line[c] == '"' then DoubleQuoted else if line[c] == '\'' then SingleQuoted else Plain
  {
    var t := line[c..e];
    StyleOfToken(style, t, value);
    assert t[0] == line[c];
  }

  lemma TokensAgree(line: string, c: int, e: int, s: Style, v: string, f: int, u: Style, w: string)
    requires Token(line, c, e, s, v) && Token(line, c, f, u, w)
    ensures e == f && s == u && v == w
  {
    StyleAt(line, c, e, s, v);
    StyleAt(line, c, f, u, w);
    TokenEndsOnce(line, c, e, f, s, v, w);
  }

  /** A line cannot carry two values at one column, whatever styles are tried. */
  lemma ReadsOneValue(line: string, c: int, v: string, w: string)
    requires Reads(line, c, v) && Reads(line, c, w)
    ensures v == w
  {
    var s :| Carries(line, c, s, v);
    var e :| Token(line, c, e, s, v);
    var u :| Carries(line, c, u, w);
    var f :| Token(line, c, f, u, w);
    TokensAgree(line, c, e, s, v, f, u, w);
  }

  lemma StringReads(lib: Library, line: string, c: int, value: string)
    requires ReadsString(lib, line, c, value)
    ensures Reads(line, c, value)
  {
    var style :| Carries(line, c, style, value) && (style == Plain ==> lib.readsAsString(value));
  }

  // ---- The writer ----

  predicate IsTagChar(c: char) {
    'a' <= c <= 'z' || 'A' <= c <= 'Z' || '0' <= c <= '9' || c == '_' || c == '.' || c == '-'
  }

  predicate IsSafePlain(lib: Library, value: string) {
    && value != "" && value[0] != '.' && value[0] != '-'
    && (forall i :: 0 <= i < |value| ==> IsTagChar(value[i]))
    && lib.readsAsString(value)
  }

  function HexDigit(n: nat): char
    requires n < 16
  {
    "0123456789abcdef"[n]
  }

  function Hex(n: nat, width: nat): (s: string)
    ensures |s| == width
    ensures forall i :: 0 <= i < width ==> s[i] != '\\' && s[i] != '"'
    decreases width
  {
    if width == 0 then "" else Hex(n / 16, width - 1) + [HexDigit(n % 16)]
  }

  function ShortEscape(c: char): Option<char> {
    match c
    case '\U{07}' => Some('a')
    case '\U{08}' => Some('b')
    case '\U{0C}' => Some('f')
    case '\n' => Some('n')
    case '\r' => Some('r')
    case '\t' => Some('t')
    case '\U{0B}' => Some('v')
    case _ => None
  }

  function HexLetter(n: nat): char {
    if n < 0x20 || n == 0x7F then 'x' else if n < 0x10000 then 'u' else 'U'
  }

  /** strconv.Quote on one rune. */
  function Escape(isPrint: char -> bool, c: char): string {
    var n := c as int;
    if c == '"' || c == '\\' then ['\\', c]
    else if isPrint(c) then [c]
    else if ShortEscape(c).Some? then ['\\', ShortEscape(c).value]
    else ['\\', HexLetter(n)] + Hex(n, HexWidth(HexLetter(n)))
  }

  function EscapeAll(isPrint: char -> bool, value: string): string {
    if value == "" then "" else Escape(isPrint, value[0]) + EscapeAll(isPrint, value[1..])
  }

  function FormatScalar(lib: Library, value: string): string {
    if IsSafePlain(lib, value) then value else "\"" + EscapeAll(lib.isPrint, value) + "\""
  }

  function FormatStyle(lib: Library, value: string): Style {
    if IsSafePlain(lib, value) then Plain else DoubleQuoted
  }

  function Pow16(k: nat): nat { if k == 0 then 1 else 16 * Pow16(k - 1) }

  lemma HexDigitRoundTrip(n: nat)
    requires n < 16
    ensures HexDigitValue(HexDigit(n)) == Some(n)
  {
  }

  lemma {:induction false} HexRoundTrip(n: nat, width: nat)
    requires n < Pow16(width)
    ensures HexValue(Hex(n, width)) == Some(n)
  {
    if width > 0 {
      HexRoundTrip(n / 16, width - 1);
      HexDigitRoundTrip(n % 16);
      var s := Hex(n, width);
      assert s[..width - 1] == Hex(n / 16, width - 1) && s[width - 1] == HexDigit(n % 16);
    }
  }

  lemma HexEscapeDecodes(letter: char, n: nat, rest: string)
    requires letter in {'x', 'u', 'U'} && n < Pow16(HexWidth(letter)) && IsScalarValue(n)
    ensures UnescapeDouble(['\\', letter] + Hex(n, HexWidth(letter)) + rest) == Prepend(n as char, UnescapeDouble(rest))
  {
    var w := HexWidth(letter);
    var s := ['\\', letter] + Hex(n, w) + rest;
    HexRoundTrip(n, w);
    assert s[2..2 + w] == Hex(n, w) && s[2 + w..] == rest && s[1] == letter;
    assert HexValue(s[2..2 + w]) == Some(n) && LetterEscape(letter).None?;
  }

  lemma HexFits(n: nat)
    requires n < 0x110000
    ensures n < Pow16(HexWidth(HexLetter(n)))
  {
    assert Pow16(2) == 0x100 && Pow16(4) == 0x10000;
    assert Pow16(6) == 0x1000000;
    assert Pow16(8) == 0x100 * Pow16(6);
  }

  lemma PairDecodes(letter: char, c: char, rest: string)
    requires LetterEscape(letter) == Some(c)
    ensures UnescapeDouble(['\\', letter] + rest) == Prepend(c, UnescapeDouble(rest))
  {
    assert (['\\', letter] + rest)[2..] == rest;
  }

  lemma PlainDecodes(c: char, rest: string)
    requires c != '"' && c != '\\' && !IsLineBreak(c)
    ensures UnescapeDouble([c] + rest) == Prepend(c, UnescapeDouble(rest))
  {
    assert ([c] + rest)[1..] == rest;
  }

  lemma ShortEscapeIsLetter(c: char)
    requires ShortEscape(c).Some?
    ensures LetterEscape(ShortEscape(c).value) == Some(c)
  {
  }

  lemma EscapeDecodes(lib: Library, c: char, rest: string)
    requires Sound(lib)
    ensures UnescapeDouble(Escape(lib.isPrint, c) + rest) == Prepend(c, UnescapeDouble(rest))
  {
    if c == '"' || c == '\\' {
      PairDecodes(c, c, rest);
    } else if lib.isPrint(c) {
      PlainDecodes(c, rest);
    } else if ShortEscape(c).Some? {
      ShortEscapeIsLetter(c);
      PairDecodes(ShortEscape(c).value, c, rest);
    } else {
      HexFits(c as int);
      HexEscapeDecodes(HexLetter(c as int), c as int, rest);
    }
  }

  lemma {:induction false} EscapeAllDecodes(lib: Library, value: string)
    requires Sound(lib)
    ensures UnescapeDouble(EscapeAll(lib.isPrint, value)) == Some(value)
  {
    if value != "" {
      EscapeDecodes(lib, value[0], EscapeAll(lib.isPrint, value[1..]));
      EscapeAllDecodes(lib, value[1..]);
      assert value == [value[0]] + value[1..];
    }
  }

  lemma {:induction false} OrdinaryBody(a: string, b: string)
    requires Body(b, '"') && forall i :: 0 <= i < |a| ==> a[i] != '\\' && a[i] != '"'
    ensures Body(a + b, '"')
  {
    if a == "" {
      assert a + b == b;
    } else {
      OrdinaryBody(a[1..], b);
      assert (a + b)[1..] == a[1..] + b;
    }
  }

  lemma {:induction false} EscapeAllIsBody(lib: Library, value: string)
    ensures Body(EscapeAll(lib.isPrint, value), '"')
  {
    if value != "" {
      EscapeAllIsBody(lib, value[1..]);
      var e, rest := Escape(lib.isPrint, value[0]), EscapeAll(lib.isPrint, value[1..]);
      if |e| == 1 {
        assert (e + rest)[1..] == rest;
      } else {
        assert (e + rest)[2..] == e[2..] + rest;
        OrdinaryBody(e[2..], rest);
      }
    }
  }

  /** Whatever the value, the written token stands for it in the style chosen for it. */
  lemma FormatEncodes(lib: Library, value: string)
    requires Sound(lib)
    ensures Encodes(FormatStyle(lib, value), FormatScalar(lib, value), value)
    ensures FormatScalar(lib, value)[..1] != "\"" ==> FormatScalar(lib, value) == value && lib.readsAsString(value)
  {
    var t := FormatScalar(lib, value);
    if IsSafePlain(lib, value) {
      assert IsTagChar(t[0]) && IsTagChar(t[|t| - 1]);
    } else {
      assert t[1..|t| - 1] == EscapeAll(lib.isPrint, value);
      EscapeAllIsBody(lib, value);
      EscapeAllDecodes(lib, value);
    }
  }

  /** A value is written as it is exactly when it starts with a letter, a digit or "_", goes
      on with these, "." or "-", and is a string to the library as it stands. */
  lemma PlainExactly(lib: Library, value: string)
    ensures FormatScalar(lib, value) == value <==>
            && value != "" && value[0] != '.' && value[0] != '-'
            && (forall i :: 0 <= i < |value| ==>
                  var c := value[i];
                  'a' <= c <= 'z' || 'A' <= c <= 'Z' || '0' <= c <= '9' || c == '_' || c == '.' || c == '-')
            && lib.readsAsString(value)
  {
    if !IsSafePlain(lib, value) {
      EscapeIsLonger(lib, value);
    }
  }

  lemma {:induction false} EscapeIsLonger(lib: Library, value: string)
    ensures |EscapeAll(lib.isPrint, value)| >= |value|
  {
    if value != "" {
      EscapeIsLonger(lib, value[1..]);
    }
  }

  lemma CarriesAsString(lib: Library, line: string, c: int, style: Style, value: string)
    requires Carries(line, c, style, value) && (style == Plain ==> lib.readsAsString(value))
    ensures ReadsString(lib, line, c, value)
  {
  }

  /** A written token, whatever surrounds it on its line, is read back as the value. */
  lemma FormatReadsBack(lib: Library, value: string, before: string, after: string)
    requires Sound(lib) && Tail(after)
    ensures Carries(before + FormatScalar(lib, value) + after, |before|, FormatStyle(lib, value), value)
    ensures ReadsString(lib, before + FormatScalar(lib, value) + after, |before|, value)
  {
    FormatEncodes(lib, value);
    var t := FormatScalar(lib, value);
    var line, e := before + t + after, |before| + |t|;
    assert line[|before|..e] == t && line[e..] == after;
    assert Token(line, |before|, e, FormatStyle(lib, value), value);
    CarriesAsString(lib, line, |before|, FormatStyle(lib, value), value);
  }

  lemma WrittenReads(lib: Library, line: string, before: string, value: string, after: string)
    requires Sound(lib) && Tail(after) && line == before + FormatScalar(lib, value) + after
    ensures ReadsString(lib, line, |before|, value)
  {
    FormatReadsBack(lib, value, before, after);
  }

  lemma {:induction false} HexIsOneLine(s: string)
    requires HexValue(s).Some?
    ensures Free(s, '\n')
  {
    if s != "" {
      HexIsOneLine(s[..|s| - 1]);
    }
  }

  lemma {:induction false} DecodableIsOneLine(b: string)
    requires UnescapeDouble(b).Some?
    ensures Free(b, '\n')
    decreases |b|
  {
    if b != "" {
      if b[0] != '\\' {
        DecodableIsOneLine(b[1..]);
      } else if LetterEscape(b[1]).Some? {
        DecodableIsOneLine(b[2..]);
      } else {
        var w := HexWidth(b[1]);
        HexIsOneLine(b[2..2 + w]);
        DecodableIsOneLine(b[2 + w..]);
        assert b == b[..2] + b[2..2 + w] + b[2 + w..];
      }
    }
  }

  /** A value with line breaks in it cannot add a line to the file. */
  lemma FormatOneLine(lib: Library, value: string)
    requires Sound(lib)
    ensures Free(FormatScalar(lib, value), '\n')
  {
    if IsSafePlain(lib, value) {
      forall i | 0 <= i < |value| ensures value[i] != '\n' {
        assert IsTagChar(value[i]);
      }
    } else {
      EscapeAllDecodes(lib, value);
      DecodableIsOneLine(EscapeAll(lib.isPrint, value));
    }
  }
}
