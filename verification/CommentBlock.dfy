/** Splicing the managed comment block above the images key
    (internal/infrastructure/manifest/kustomize/document.go). */
module CommentBlock {
  import opened Text
  import opened Metadata
  import Layout

  /** The state of a document that an upsert reads and writes. */
  datatype State = State(lines: seq<string>, keyLine: int, indent: nat, nodes: seq<Layout.Node>)

  predicate IsComment(line: string) { UncommentLine(line).Some? }

  /** lines[start..end) is the longest run of comments that ends at end. */
  ghost predicate HeadComments(lines: seq<string>, start: int, end: int) {
    && 0 <= start <= end <= |lines|
    && (forall i :: start <= i < end ==> IsComment(lines[i]))
    && (start > 0 ==> !IsComment(lines[start - 1]))
  }

  ghost predicate EndsBlock(f: Format, lines: seq<string>, low: int, i: int) {
    && 0 <= low <= i < |lines| && IsMarker(f, lines[i], f.end)
    && exists j :: low <= j < i && IsMarker(f, lines[j], f.begin)
  }

  /** lines[from..to) is the first marker-delimited block of lines[low..high): it closes
      at the first end marker with a begin marker above it and opens at the nearest one. */
  ghost predicate FirstBlock(f: Format, lines: seq<string>, low: int, high: int, from: int, to: int) {
    && 0 <= low <= from < to - 1 < high <= |lines|
    && IsMarker(f, lines[from], f.begin) && IsMarker(f, lines[to - 1], f.end)
    && (forall i :: from < i < to ==> !IsMarker(f, lines[i], f.begin))
    && (forall i :: low <= i < to - 1 ==> !EndsBlock(f, lines, low, i))
  }

  ghost predicate NoBlock(f: Format, lines: seq<string>, low: int, high: int) {
    forall i :: low <= i < high ==> !EndsBlock(f, lines, low, i)
  }

  lemma FirstBlockIsUnique(f: Format, lines: seq<string>, low: int, high: int, a: int, b: int, c: int, d: int)
    requires FirstBlock(f, lines, low, high, a, b) && FirstBlock(f, lines, low, high, c, d)
    ensures a == c && b == d
  {
    assert EndsBlock(f, lines, low, b - 1) && EndsBlock(f, lines, low, d - 1);
  }

  lemma FirstBlockIsSome(f: Format, lines: seq<string>, low: int, high: int, a: int, b: int)
    requires FirstBlock(f, lines, low, high, a, b)
    ensures !NoBlock(f, lines, low, high)
  {
    assert EndsBlock(f, lines, low, b - 1);
  }

  /** What one upsert decided: the head comments start at start, the block replaced is
      lines[from..to) (empty where there is none), the entries went from before to
      after, and body is the YAML rendered into the new block. */
  datatype Splice = Splice(start: int, from: int, to: int, before: seq<Manifest>, after: seq<Manifest>,
                           body: seq<string>)

  function Indented(margin: nat, lines: seq<string>): (r: seq<string>)
    ensures |r| == |lines| && forall i :: 0 <= i < |lines| ==> r[i] == Spaces(margin) + lines[i]
  {
    seq(|lines|, i requires 0 <= i < |lines| => Spaces(margin) + lines[i])
  }

  /** The entries the existing block holds, none when its body is not a document. */
  function EntriesOf(f: Format, block: seq<string>): seq<Manifest> {
    match f.decode(Join(BodyOf(f, block), "\n"))
    case Some(content) => content.images
    case None => []
  }

  /** w says where the block is, or goes, and which entries it is to hold. */
  ghost predicate Located(f: Format, s: State, m: Manifest, w: Splice) {
    && HeadComments(s.lines, w.start, s.keyLine - 1)
    && 0 <= w.from <= w.to <= |s.lines|
    && (if w.from < w.to
        then FirstBlock(f, s.lines, w.start, s.keyLine - 1, w.from, w.to)
            && w.before == EntriesOf(f, s.lines[w.from..w.to])
        else NoBlock(f, s.lines, w.start, s.keyLine - 1) && w.from == w.start && w.before == [])
    && UpsertOf(w.before, m, w.after)
  }

  function Updated(after: seq<Manifest>): Content { Content(SCHEMA_VERSION, GENERATOR, after) }

  /** s became t by upserting m at the given YAML indent, as w records. */
  ghost predicate Upserted(f: Format, s: State, m: Manifest, indent: int, t: State, w: Splice) {
    && Located(f, s, m, w)
    && EncodedBody(f, Updated(w.after), indent) == Some(w.body) && Guarded(f, w.body)
    && t.lines == s.lines[..w.from] + Indented(s.indent, Wrapped(f, w.body)) + s.lines[w.to..]
    && t.keyLine == s.keyLine + Delta(w)
    && t.indent == s.indent
    && t.nodes == Layout.ShiftNodes(s.nodes, Delta(w))
  }

  lemma SpliceUpserts(f: Format, s: State, m: Manifest, indent: int, t: State, w: Splice)
    requires Located(f, s, m, w)
    requires EncodedBody(f, Updated(w.after), indent) == Some(w.body) && Guarded(f, w.body)
    requires t == State(s.lines[..w.from] + Indented(s.indent, Wrapped(f, w.body)) + s.lines[w.to..],
                        s.keyLine + Delta(w), s.indent, Layout.ShiftNodes(s.nodes, Delta(w)))
    ensures Upserted(f, s, m, indent, t, w)
  {
  }

  function Delta(w: Splice): int { |w.body| + 2 - (w.to - w.from) }

  /** Where the new block ends. */
  function BlockEnd(w: Splice): int { w.from + |w.body| + 2 }

  // ---- What an upsert keeps ----

  /** A line at or below the images key keeps its text and moves by the growth of the
      block, a line above the block stays. */
  lemma LinesKept(f: Format, s: State, m: Manifest, indent: int, t: State, w: Splice, p: int)
    requires Upserted(f, s, m, indent, t, w)
    ensures w.to <= p < |s.lines| ==> 0 <= p + Delta(w) < |t.lines| && t.lines[p + Delta(w)] == s.lines[p]
    ensures 0 <= p < w.from ==> p < |t.lines| && t.lines[p] == s.lines[p]
    ensures |t.lines| == |s.lines| + Delta(w)
  {
  }

  /** Every recorded line number names the line it named before. */
  ghost predicate SameNames(s: State, t: State) {
    && |Positions(t)| == |Positions(s)|
    && forall i :: 0 <= i < |Positions(s)| ==> SameLine(s, Positions(s)[i], t, Positions(t)[i])
  }

  ghost predicate SameLine(s: State, p: int, t: State, q: int) {
    1 <= p <= |s.lines| && 1 <= q <= |t.lines| && t.lines[q - 1] == s.lines[p - 1]
  }

  /** The images key first, then every node of the images block. */
  function Positions(s: State): seq<int> { [s.keyLine] + Layout.Positions(s.nodes) }

  /** The images key is a line of the file and the images block is not above it. */
  ghost predicate InRange(s: State) {
    forall i :: 0 <= i < |Positions(s)| ==> 1 <= s.keyLine <= Positions(s)[i] <= |s.lines|
  }

  lemma NameKept(f: Format, s: State, m: Manifest, indent: int, t: State, w: Splice, p: int)
    requires Upserted(f, s, m, indent, t, w) && 1 <= s.keyLine <= p <= |s.lines|
    ensures SameLine(s, p, t, p + Delta(w)) && 1 <= t.keyLine <= p + Delta(w)
  {
    LinesKept(f, s, m, indent, t, w, p - 1);
    LinesKept(f, s, m, indent, t, w, s.keyLine - 1);
  }

  lemma PositionsMove(s: State, t: State, delta: int)
    requires t.keyLine == s.keyLine + delta && t.nodes == Layout.ShiftNodes(s.nodes, delta)
    ensures |Positions(t)| == |Positions(s)|
    ensures forall i :: 0 <= i < |Positions(s)| ==> Positions(t)[i] == Positions(s)[i] + delta
  {
    Layout.ShiftMovesPositions(s.nodes, delta);
  }

  lemma NamesKept(f: Format, s: State, m: Manifest, indent: int, t: State, w: Splice)
    requires Upserted(f, s, m, indent, t, w) && InRange(s)
    ensures SameNames(s, t) && InRange(t)
  {
    PositionsMove(s, t, Delta(w));
    forall i | 0 <= i < |Positions(s)|
      ensures SameLine(s, Positions(s)[i], t, Positions(t)[i]) && 1 <= t.keyLine <= Positions(t)[i]
    {
      NameKept(f, s, m, indent, t, w, Positions(s)[i]);
    }
  }

  /** Through any sequence of upserts every recorded line number keeps its line. */
  lemma {:induction false} NamesKeptThroughout(f: Format, states: seq<State>, ms: seq<Manifest>, indents: seq<int>,
                                               ws: seq<Splice>)
    requires |states| == |ms| + 1 == |indents| + 1 == |ws| + 1
    requires InRange(states[0])
    requires forall i :: 0 <= i < |ms| ==> Upserted(f, states[i], ms[i], indents[i], states[i + 1], ws[i])
    ensures SameNames(states[0], states[|ms|]) && InRange(states[|ms|])
  {
    var n := |ms|;
    if n > 0 {
      NamesKeptThroughout(f, states[..n], ms[..n - 1], indents[..n - 1], ws[..n - 1]);
      NamesKept(f, states[n - 1], ms[n - 1], indents[n - 1], states[n], ws[n - 1]);
    }
  }

  // ---- The block is found again ----

  lemma NewBlockLines(f: Format, s: State, m: Manifest, indent: int, t: State, w: Splice)
    requires DistinctMarkers(f) && Upserted(f, s, m, indent, t, w)
    ensures BlockEnd(w) <= |t.lines| && IndentedBlock(f, w.body, t.lines[w.from..BlockEnd(w)])
  {
    var block := Indented(s.indent, Wrapped(f, w.body));
    assert t.lines[w.from..BlockEnd(w)] == block;
    assert AllBlank(Spaces(s.indent));
    forall i | 0 <= i < |block| ensures IsIndented(block[i], Wrapped(f, w.body)[i]) {
      assert block[i] == Spaces(s.indent) + Wrapped(f, w.body)[i];
    }
  }

  /** The kinds of a line of a block, at place k. */
  ghost predicate KindsAt(f: Format, line: string, k: int, last: int) {
    && IsComment(line) && (IsMarker(f, line, f.begin) <==> k == 0) && (IsMarker(f, line, f.end) <==> k == last)
  }

  lemma BlockKind(f: Format, body: seq<string>, block: seq<string>, k: nat, line: string)
    requires DistinctMarkers(f) && Guarded(f, body) && IndentedBlock(f, body, block) && k < |block| && block[k] == line
    ensures KindsAt(f, line, k, |block| - 1)
  {
    BlockLine(f, body, block, k);
  }

  lemma BlockKinds(f: Format, body: seq<string>, lines: seq<string>, from: int, to: int, i: int)
    requires DistinctMarkers(f) && Guarded(f, body)
    requires 0 <= from <= i < to <= |lines| && IndentedBlock(f, body, lines[from..to])
    ensures KindsAt(f, lines[i], i - from, to - from - 1)
  {
    BlockKind(f, body, lines[from..to], i - from, lines[i]);
  }

  /** Markers and comments of the new file, line by line. */
  lemma NewLineKinds(f: Format, s: State, m: Manifest, indent: int, t: State, w: Splice, i: int)
    requires DistinctMarkers(f) && Upserted(f, s, m, indent, t, w)
    requires 0 <= i < t.keyLine - 1 <= |t.lines|
    ensures i < w.from ==> t.lines[i] == s.lines[i]
    ensures w.from <= i < BlockEnd(w) ==>
              && IsComment(t.lines[i]) && (IsMarker(f, t.lines[i], f.begin) <==> i == w.from)
              && (IsMarker(f, t.lines[i], f.end) <==> i == BlockEnd(w) - 1)
    ensures i >= BlockEnd(w) ==> t.lines[i] == s.lines[i - Delta(w)]
  {
    if i < w.from {
      LinesKept(f, s, m, indent, t, w, i);
    } else if i < BlockEnd(w) {
      NewBlockLines(f, s, m, indent, t, w);
      BlockKinds(f, w.body, t.lines, w.from, BlockEnd(w), i);
    } else {
      LinesKept(f, s, m, indent, t, w, i - Delta(w));
    }
  }

  lemma HeadFoundAgain(f: Format, s: State, m: Manifest, indent: int, t: State, w: Splice)
    requires DistinctMarkers(f) && Upserted(f, s, m, indent, t, w)
    ensures HeadComments(t.lines, w.start, t.keyLine - 1)
  {
    LinesKept(f, s, m, indent, t, w, w.start - 1);
    forall i | w.start <= i < t.keyLine - 1 ensures IsComment(t.lines[i]) {
      NewLineKinds(f, s, m, indent, t, w, i);
    }
  }

  lemma NoEarlierBlock(f: Format, s: State, m: Manifest, indent: int, t: State, w: Splice, i: int)
    requires DistinctMarkers(f) && Upserted(f, s, m, indent, t, w)
    requires w.start <= i < w.from + |w.body| + 1
    ensures !EndsBlock(f, t.lines, w.start, i)
  {
    NewLineKinds(f, s, m, indent, t, w, i);
    if EndsBlock(f, t.lines, w.start, i) {
      var j :| w.start <= j < i && IsMarker(f, t.lines[j], f.begin);
      NewLineKinds(f, s, m, indent, t, w, j);
      assert EndsBlock(f, s.lines, w.start, i);
    }
  }

  lemma NewBlockIsFirst(f: Format, s: State, m: Manifest, indent: int, t: State, w: Splice)
    requires DistinctMarkers(f) && Upserted(f, s, m, indent, t, w)
    ensures FirstBlock(f, t.lines, w.start, t.keyLine - 1, w.from, BlockEnd(w))
  {
    var to := BlockEnd(w);
    NewLineKinds(f, s, m, indent, t, w, w.from);
    NewLineKinds(f, s, m, indent, t, w, to - 1);
    forall i | w.from < i < to ensures !IsMarker(f, t.lines[i], f.begin) {
      NewLineKinds(f, s, m, indent, t, w, i);
    }
    forall i | w.start <= i < to - 1 ensures !EndsBlock(f, t.lines, w.start, i) {
      NoEarlierBlock(f, s, m, indent, t, w, i);
    }
  }

  lemma NewBlockText(f: Format, s: State, m: Manifest, indent: int, t: State, w: Splice)
    requires DistinctMarkers(f) && Upserted(f, s, m, indent, t, w)
    ensures BlockEnd(w) <= |t.lines| && EncodedText(f, Updated(w.after), indent).Some?
    ensures Join(BodyOf(f, t.lines[w.from..BlockEnd(w)]), "\n") ==
              TrimNewlines(EncodedText(f, Updated(w.after), indent).value)
  {
    NewBlockLines(f, s, m, indent, t, w);
    BlockRoundTrip(f, w.body, t.lines[w.from..BlockEnd(w)]);
    BodyJoins(f, Updated(w.after), indent, w.body);
  }

  /** The rendered block is again the first block above the images key, below the same
      other comments, and what is read out of it is the text the library made of the
      updated document, without the newlines at its end. */
  lemma BlockFoundAgain(f: Format, s: State, m: Manifest, indent: int, t: State, w: Splice)
    requires DistinctMarkers(f) && Upserted(f, s, m, indent, t, w)
    ensures HeadComments(t.lines, w.start, t.keyLine - 1)
    ensures FirstBlock(f, t.lines, w.start, t.keyLine - 1, w.from, BlockEnd(w))
    ensures EncodedText(f, Updated(w.after), indent).Some?
    ensures Join(BodyOf(f, t.lines[w.from..BlockEnd(w)]), "\n") ==
              TrimNewlines(EncodedText(f, Updated(w.after), indent).value)
  {
    HeadFoundAgain(f, s, m, indent, t, w);
    NewBlockIsFirst(f, s, m, indent, t, w);
    NewBlockText(f, s, m, indent, t, w);
  }

  // ---- Where the block stands ----

  /** The line is a comment in the column. */
  predicate CommentAt(line: string, column: nat) {
    column < |line| && line[column] == '#' && forall j :: 0 <= j < column ==> line[j] == ' '
  }

  lemma IndentedAt(f: Format, body: seq<string>, margin: nat, i: nat)
    requires i < |body| + 2
    ensures CommentAt(Indented(margin, Wrapped(f, body))[i], margin)
  {
    var content := BlockContent(f, body, i);
    assert Wrapped(f, body)[i] == CommentLine(content);
    assert CommentLine(content)[0] == '#';
  }

  /** Every line of the block is a comment in the column of the images key. */
  lemma BlockInColumn(f: Format, s: State, m: Manifest, indent: int, t: State, w: Splice, i: int)
    requires Upserted(f, s, m, indent, t, w) && w.from <= i < BlockEnd(w)
    ensures i < |t.lines| && CommentAt(t.lines[i], s.indent)
  {
    IndentedAt(f, w.body, s.indent, i - w.from);
    BlockInPlace(f, s, m, indent, t, w);
    assert t.lines[i] == Indented(s.indent, Wrapped(f, w.body))[i - w.from];
  }

  lemma NothingToReplace(f: Format, s: State, m: Manifest, w: Splice, start: int)
    requires Located(f, s, m, w)
    requires HeadComments(s.lines, start, s.keyLine - 1) && NoBlock(f, s.lines, start, s.keyLine - 1)
    ensures w.from == w.to == start
  {
    HeadIsUnique(s.lines, w.start, start, s.keyLine - 1);
    if w.from < w.to {
      FirstBlockIsSome(f, s.lines, w.start, s.keyLine - 1, w.from, w.to);
    }
  }

  /** Where there was no block, the new one is on top of the comments that stood above the
      images key: they follow it, and nothing above them is touched. */
  lemma BlockOnTop(f: Format, s: State, m: Manifest, indent: int, t: State, w: Splice, start: int)
    requires Upserted(f, s, m, indent, t, w)
    requires HeadComments(s.lines, start, s.keyLine - 1) && NoBlock(f, s.lines, start, s.keyLine - 1)
    ensures w.from == start && |t.lines| == |s.lines| + |w.body| + 2
    ensures forall i :: 0 <= i < start ==> t.lines[i] == s.lines[i]
    ensures forall i :: start <= i < |s.lines| ==> t.lines[i + (|w.body| + 2)] == s.lines[i]
  {
    NothingToReplace(f, s, m, w, start);
    forall i | 0 <= i < |s.lines|
      ensures if i < start then t.lines[i] == s.lines[i] else t.lines[i + (|w.body| + 2)] == s.lines[i]
    {
      LinesKept(f, s, m, indent, t, w, i);
    }
  }

  /** Where there was a block, the new one takes its place, and nothing else is touched. */
  lemma BlockReplaced(f: Format, s: State, m: Manifest, indent: int, t: State, w: Splice, start: int, from: int,
                      to: int)
    requires Upserted(f, s, m, indent, t, w)
    requires HeadComments(s.lines, start, s.keyLine - 1) && FirstBlock(f, s.lines, start, s.keyLine - 1, from, to)
    ensures w.from == from && w.to == to
    ensures var grown := |t.lines| - |s.lines|;
            && (forall i :: 0 <= i < from ==> t.lines[i] == s.lines[i])
            && forall i :: to <= i < |s.lines| ==> t.lines[i + grown] == s.lines[i]
  {
    HeadIsUnique(s.lines, w.start, start, s.keyLine - 1);
    FirstBlockIsSome(f, s.lines, start, s.keyLine - 1, from, to);
    FirstBlockIsUnique(f, s.lines, start, s.keyLine - 1, from, to, w.from, w.to);
    forall i | 0 <= i < |s.lines| && (i < from || to <= i)
      ensures t.lines[if i < from then i else i + (|t.lines| - |s.lines|)] == s.lines[i]
    {
      LinesKept(f, s, m, indent, t, w, i);
    }
  }

  // ---- One outcome ----

  lemma HeadIsUnique(lines: seq<string>, a: int, b: int, end: int)
    requires HeadComments(lines, a, end) && HeadComments(lines, b, end)
    ensures a == b
  {
    assert a > 0 ==> !IsComment(lines[a - 1]);
    assert b > 0 ==> !IsComment(lines[b - 1]);
  }

  lemma SamePlace(f: Format, s: State, m: Manifest, w: Splice, x: Splice)
    requires Located(f, s, m, w) && Located(f, s, m, x)
    ensures x.start == w.start && x.from == w.from && x.to == w.to && x.before == w.before
  {
    var high := s.keyLine - 1;
    HeadIsUnique(s.lines, w.start, x.start, high);
    if w.from < w.to {
      FirstBlockIsSome(f, s.lines, w.start, high, w.from, w.to);
      FirstBlockIsUnique(f, s.lines, w.start, high, w.from, w.to, x.from, x.to);
    } else if x.from < x.to {
      FirstBlockIsSome(f, s.lines, x.start, high, x.from, x.to);
    }
  }

  lemma SameSplice(f: Format, s: State, m: Manifest, w: Splice, x: Splice)
    requires Located(f, s, m, w) && Located(f, s, m, x)
    ensures x == w.(body := x.body)
  {
    SamePlace(f, s, m, w, x);
    UpsertIsUnique(w.before, m, w.after, x.after);
  }

  /** An upsert has one outcome, with a block to replace or without. */
  lemma UpsertIsDeterministic(f: Format, s: State, m: Manifest, indent: int, t: State, w: Splice, u: State, x: Splice)
    requires Upserted(f, s, m, indent, t, w) && Upserted(f, s, m, indent, u, x)
    ensures u == t && x == w
  {
    SameSplice(f, s, m, w, x);
  }

  // ---- The second upsert ----

  /** The new file is its own text around the block with the block written over itself. */
  lemma BlockInPlace(f: Format, s: State, m: Manifest, indent: int, t: State, w: Splice)
    requires Upserted(f, s, m, indent, t, w)
    ensures BlockEnd(w) <= |t.lines|
    ensures t.lines == t.lines[..w.from] + Indented(s.indent, Wrapped(f, w.body)) + t.lines[BlockEnd(w)..]
  {
    var block := Indented(s.indent, Wrapped(f, w.body));
    assert |block| == |w.body| + 2;
    assert t.lines[..w.from] == s.lines[..w.from];
    assert t.lines[BlockEnd(w)..] == s.lines[w.to..];
  }

  /** The splice of a second upsert of the same manifest. */
  function Again(w: Splice): Splice { Splice(w.start, w.from, BlockEnd(w), w.after, w.after, w.body) }

  lemma LocatedAgain(f: Format, s: State, m: Manifest, indent: int, t: State, w: Splice)
    requires DistinctMarkers(f) && Upserted(f, s, m, indent, t, w) && ReadsBack(f, Updated(w.after), indent)
    ensures Located(f, t, m, Again(w))
  {
    BlockFoundAgain(f, s, m, indent, t, w);
    UpsertIsIdempotent(w.before, m, w.after, w.after);
    assert EntriesOf(f, t.lines[w.from..BlockEnd(w)]) == w.after;
  }

  lemma SecondUpsertSucceeds(f: Format, s: State, m: Manifest, indent: int, t: State, w: Splice)
    requires DistinctMarkers(f) && Upserted(f, s, m, indent, t, w) && ReadsBack(f, Updated(w.after), indent)
    ensures Upserted(f, t, m, indent, t, Again(w))
  {
    LocatedAgain(f, s, m, indent, t, w);
    Layout.ShiftByNothing(t.nodes);
    BlockInPlace(f, s, m, indent, t, w);
    assert Delta(Again(w)) == 0;
  }

  /** Upserting the same manifest a second time succeeds and changes nothing at all. */
  lemma SecondUpsertIsIdentity(f: Format, s: State, m: Manifest, indent: int, t: State, w: Splice, u: State)
    requires DistinctMarkers(f) && Upserted(f, s, m, indent, t, w) && ReadsBack(f, Updated(w.after), indent)
    ensures (exists x :: Upserted(f, t, m, indent, u, x)) <==> u == t
  {
    SecondUpsertSucceeds(f, s, m, indent, t, w);
    if x :| Upserted(f, t, m, indent, u, x) {
      UpsertIsDeterministic(f, t, m, indent, t, Again(w), u, x);
    }
  }
}
