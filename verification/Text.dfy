/** The few operations on strings the program borrows from Go's standard library.
    A string is a sequence of Unicode scalar values. */
module Text {
  datatype Option<+T> = None | Some(value: T)
  datatype Result<+T, +E> = Ok(value: T) | Err(error: E)

  predicate IsBlank(c: char) { c == ' ' || c == '\t' }

  /** The White_Space runes that Go's unicode.IsSpace accepts. */
  predicate IsSpace(c: char) {
    var n := c as int;
    (0x09 <= n <= 0x0d) || n == 0x20 || n == 0x85 || n == 0xa0 || n == 0x1680 ||
    (0x2000 <= n <= 0x200a) || n == 0x2028 || n == 0x2029 || n == 0x202f || n == 0x205f || n == 0x3000
  }

  predicate Free(s: string, c: char) { forall i :: 0 <= i < |s| ==> s[i] != c }

  function Spaces(n: nat): (r: string)
    ensures |r| == n && forall i :: 0 <= i < n ==> r[i] == ' '
  {
    seq(n, _ => ' ')
  }

  /** Length of the longest prefix of blanks. */
  function BlankRun(s: string): (k: nat)
    ensures k <= |s|
    ensures forall i :: 0 <= i < k ==> IsBlank(s[i])
    ensures k < |s| ==> !IsBlank(s[k])
  {
    if s == "" || !IsBlank(s[0]) then 0 else 1 + BlankRun(s[1..])
  }

  lemma {:induction false} BlankRunBehind(margin: string, s: string)
    requires forall i :: 0 <= i < |margin| ==> IsBlank(margin[i])
    ensures BlankRun(margin + s) == |margin| + BlankRun(s)
  {
    if margin == "" {
      assert margin + s == s;
    } else {
      assert (margin + s)[1..] == margin[1..] + s;
      BlankRunBehind(margin[1..], s);
    }
  }

  /** Length of what remains after cutting the trailing characters that satisfy drop. */
  function KeptLength(s: string, drop: char -> bool): (k: nat)
    ensures k <= |s|
    ensures forall i :: k <= i < |s| ==> drop(s[i])
    ensures k > 0 ==> !drop(s[k - 1])
  {
    if s == "" || !drop(s[|s| - 1]) then |s| else KeptLength(s[..|s| - 1], drop)
  }

  function TrimLeftBlank(s: string): string { s[BlankRun(s)..] }

  function TrimRight(s: string, drop: char -> bool): string { s[..KeptLength(s, drop)] }

  function TrimLeftSpace(s: string): (r: string)
    ensures |r| <= |s| && r == s[|s| - |r|..]
    ensures r != "" ==> !IsSpace(r[0])
  {
    if s != "" && IsSpace(s[0]) then TrimLeftSpace(s[1..]) else s
  }

  function TrimSpace(s: string): string { TrimRight(TrimLeftSpace(s), IsSpace) }

  /** strings.Trim(s, "/"). */
  function TrimSlashes(s: string): string {
    TrimRight(TrimLeftSlashes(s), c => c == '/')
  }

  function TrimLeftSlashes(s: string): string {
    if s != "" && s[0] == '/' then TrimLeftSlashes(s[1..]) else s
  }

  lemma UntrimmedStays(s: string)
    requires s != "" && s[0] != '/' && s[|s| - 1] != '/'
    ensures TrimSlashes(s) == s
  {
  }

  lemma {:induction false} RightTrimmed(s: string, tail: string, drop: char -> bool)
    requires s == "" || !drop(s[|s| - 1])
    requires forall i :: 0 <= i < |tail| ==> drop(tail[i])
    ensures TrimRight(s + tail, drop) == s
  {
    if tail == "" {
      assert s + tail == s;
    } else {
      assert (s + tail)[..|s + tail| - 1] == s + tail[..|tail| - 1];
      RightTrimmed(s, tail[..|tail| - 1], drop);
    }
  }

  lemma {:induction false} SlashesTrimmed(head: string, s: string)
    requires (s == "" || s[0] != '/') && forall i :: 0 <= i < |head| ==> head[i] == '/'
    ensures TrimLeftSlashes(head + s) == s
  {
    if head == "" {
      assert head + s == s;
    } else {
      assert (head + s)[1..] == head[1..] + s;
      SlashesTrimmed(head[1..], s);
    }
  }

  /** Exactly the slashes on either side are trimmed. */
  lemma TrimSlashesExactly(head: string, s: string, tail: string)
    requires s != "" && s[0] != '/' && s[|s| - 1] != '/'
    requires (forall i :: 0 <= i < |head| ==> head[i] == '/') && forall i :: 0 <= i < |tail| ==> tail[i] == '/'
    ensures TrimSlashes(head + s + tail) == s
  {
    assert head + s + tail == head + (s + tail) && (s + tail)[0] == s[0];
    SlashesTrimmed(head, s + tail);
    RightTrimmed(s, tail, c => c == '/');
  }

  lemma {:induction false} SpaceTrimmed(head: string, s: string)
    requires (s == "" || !IsSpace(s[0])) && forall i :: 0 <= i < |head| ==> IsSpace(head[i])
    ensures TrimLeftSpace(head + s) == s
  {
    if head == "" {
      assert head + s == s;
    } else {
      assert (head + s)[1..] == head[1..] + s;
      SpaceTrimmed(head[1..], s);
    }
  }

  /** Exactly the space on either side is trimmed. */
  lemma TrimSpaceExactly(head: string, s: string, tail: string)
    requires s != "" && !IsSpace(s[0]) && !IsSpace(s[|s| - 1])
    requires (forall i :: 0 <= i < |head| ==> IsSpace(head[i])) && forall i :: 0 <= i < |tail| ==> IsSpace(tail[i])
    ensures TrimSpace(head + s + tail) == s
  {
    assert head + s + tail == head + (s + tail) && (s + tail)[0] == s[0];
    SpaceTrimmed(head, s + tail);
    RightTrimmed(s, tail, IsSpace);
  }

  function Join(parts: seq<string>, sep: string): string {
    if |parts| == 0 then "" else if |parts| == 1 then parts[0] else parts[0] + sep + Join(parts[1..], sep)
  }

  function Split(s: string, sep: char): (r: seq<string>)
    ensures |r| > 0
    ensures forall i :: 0 <= i < |r| ==> Free(r[i], sep)
  {
    if s == "" then [""]
    else
      var rest := Split(s[1..], sep);
      if s[0] == sep then [""] + rest else [[s[0]] + rest[0]] + rest[1..]
  }

  function NonEmpty(parts: seq<string>): seq<string> {
    if parts == [] then [] else (if parts[0] == "" then [] else [parts[0]]) + NonEmpty(parts[1..])
  }

  lemma {:induction false} JoinSplit(s: string, sep: char)
    ensures Join(Split(s, sep), [sep]) == s
  {
    if s != "" {
      JoinSplit(s[1..], sep);
      var rest := Split(s[1..], sep);
      if s[0] == sep {
        assert ([""] + rest)[1..] == rest;
      } else {
        assert ([[s[0]] + rest[0]] + rest[1..])[1..] == rest[1..];
      }
    }
  }

  /** Joined parts start as the first one does and end as the last one. */
  lemma {:induction false} JoinEnds(parts: seq<string>, sep: string)
    requires parts != [] && forall i :: 0 <= i < |parts| ==> parts[i] != ""
    ensures var s := Join(parts, sep);
            s != "" && s[0] == parts[0][0] && s[|s| - 1] == var last := parts[|parts| - 1]; last[|last| - 1]
  {
    if |parts| > 1 {
      JoinEnds(parts[1..], sep);
    }
  }

  /** Splitting at a character and joining with another replaces the one by the other. */
  lemma {:induction false} SplitReplaces(s: string, sep: char, by_: char)
    ensures var r := Join(Split(s, sep), [by_]);
            |r| == |s| && forall i :: 0 <= i < |s| ==> r[i] == if s[i] == sep then by_ else s[i]
  {
    if s != "" {
      SplitReplaces(s[1..], sep, by_);
      var rest := Split(s[1..], sep);
      if s[0] == sep {
        assert ([""] + rest)[1..] == rest;
        assert Join(Split(s, sep), [by_]) == [by_] + Join(rest, [by_]);
      } else {
        assert ([[s[0]] + rest[0]] + rest[1..])[1..] == rest[1..];
        assert Join(Split(s, sep), [by_]) == [s[0]] + Join(rest, [by_]);
      }
    }
  }

  lemma {:induction false} SplitFree(s: string, sep: char)
    requires Free(s, sep)
    ensures Split(s, sep) == [s]
  {
    if s != "" {
      assert Free(s[1..], sep);
      SplitFree(s[1..], sep);
      assert [s[0]] + s[1..] == s;
    }
  }

  lemma {:induction false} SplitPrefix(head: string, tail: string, sep: char)
    requires Free(head, sep)
    ensures Split(head + [sep] + tail, sep) == [head] + Split(tail, sep)
  {
    var s := head + [sep] + tail;
    if head == "" {
      assert s[1..] == tail;
    } else {
      assert s[1..] == head[1..] + [sep] + tail;
      SplitPrefix(head[1..], tail, sep);
      assert [head[0]] + head[1..] == head;
    }
  }

  lemma {:induction false} SplitJoin(parts: seq<string>, sep: char)
    requires |parts| > 0
    requires forall i :: 0 <= i < |parts| ==> Free(parts[i], sep)
    ensures Split(Join(parts, [sep]), sep) == parts
  {
    if |parts| == 1 {
      SplitFree(parts[0], sep);
    } else {
      var tail := Join(parts[1..], [sep]);
      SplitJoin(parts[1..], sep);
      SplitPrefix(parts[0], tail, sep);
      assert Join(parts, [sep]) == parts[0] + [sep] + tail;
      assert parts == [parts[0]] + parts[1..];
    }
  }

  /** Go's < on strings: byte order of UTF-8, which is code point order. */
  predicate Less(a: string, b: string) {
    b != "" && (a == "" || a[0] < b[0] || (a[0] == b[0] && Less(a[1..], b[1..])))
  }

  /** b goes on behind the first k characters that both have, and a ends there or has the
      smaller character. */
  predicate BelowAt(a: string, b: string, k: int) {
    0 <= k <= |a| && k < |b| && a[..k] == b[..k] && (k == |a| || a[k] < b[k])
  }

  lemma BelowAtHead(a: string, b: string, k: int)
    requires a != "" && BelowAt(a, b, k)
    ensures a[0] <= b[0]
  {
    if k > 0 {
      assert a[..k][0] == a[0] && b[..k][0] == b[0];
    }
  }

  /** Less is the lexicographic order of characters. */
  lemma {:induction false} LessExactly(a: string, b: string)
    ensures Less(a, b) <==> exists k :: BelowAt(a, b, k)
  {
    if a != "" && b != "" && a[0] == b[0] {
      LessExactly(a[1..], b[1..]);
      if k :| BelowAt(a[1..], b[1..], k) {
        assert a[..k + 1] == [a[0]] + a[1..][..k] && b[..k + 1] == [b[0]] + b[1..][..k];
        assert BelowAt(a, b, k + 1);
      }
      if k :| BelowAt(a, b, k) {
        assert k > 0;
        assert a[1..][..k - 1] == a[..k][1..] && b[1..][..k - 1] == b[..k][1..];
        assert BelowAt(a[1..], b[1..], k - 1);
      }
    } else if b != "" {
      if a == "" || a[0] < b[0] {
        assert BelowAt(a, b, 0);
      } else if k :| BelowAt(a, b, k) {
        BelowAtHead(a, b, k);
      }
    }
  }

  predicate AtMost(a: string, b: string) { a == b || Less(a, b) }

  lemma {:induction false} LessTotal(a: string, b: string)
    ensures Less(a, b) || a == b || Less(b, a)
  {
    if a != "" && b != "" && a[0] == b[0] {
      LessTotal(a[1..], b[1..]);
      assert a == [a[0]] + a[1..] && b == [b[0]] + b[1..];
    }
  }

  lemma {:induction false} LessAsymmetric(a: string, b: string)
    requires Less(a, b)
    ensures !Less(b, a) && a != b
  {
    if a != "" && a[0] == b[0] {
      LessAsymmetric(a[1..], b[1..]);
    }
  }

  lemma {:induction false} LessTransitive(a: string, b: string, c: string)
    requires Less(a, b) && Less(b, c)
    ensures Less(a, c)
  {
    if a != "" && a[0] == b[0] && b[0] == c[0] {
      LessTransitive(a[1..], b[1..], c[1..]);
    }
  }
}
