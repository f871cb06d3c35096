/** The managed metadata comment block: internal/model/manifest.go. */
module Metadata {
  import opened Text

  const SCHEMA_VERSION := "v1"
  const GENERATOR := "image-updater"
  const BEGIN_MARKER := "--- BEGIN image-updater metadata (auto-generated, do not edit) ---"
  const END_MARKER := "--- END image-updater metadata ---"
  const INDENT_DEFAULT := 2
  const INDENT_MIN := 2
  const INDENT_MAX := 9

  datatype Manifest = Manifest(
    image: string, gitHubRepo: string, gitSHA: string, commitURL: string,
    builtAt: string, buildRunURL: string, extra: map<string, string>)

  datatype Content = Content(schemaVersion: string, generator: string, images: seq<Manifest>)

  /** How a document is laid out in comments. The YAML library turns a document
      into text at an indent, or fails to, and text back into a document, or fails
      to; the markers delimit the block and are recognised on a trimmed line. */
  datatype Format = Format(
    encode: (Content, int) -> Option<string>, decode: string -> Option<Content>,
    trim: string -> string, begin: string, end: string)

  predicate DistinctMarkers(f: Format) {
    f.trim(f.begin) == f.begin && f.trim(f.end) == f.end && f.begin != f.end
  }

  lemma TrimNothing(s: string)
    requires s != "" && !IsSpace(s[0]) && !IsSpace(s[|s| - 1])
    ensures TrimSpace(s) == s
  {
  }

  lemma ProgramMarkers(f: Format)
    requires f.begin == BEGIN_MARKER && f.end == END_MARKER && forall s :: f.trim(s) == TrimSpace(s)
    ensures DistinctMarkers(f)
  {
    assert |BEGIN_MARKER| == 66 && |END_MARKER| == 34;
    assert "--- BEGIN image-updater metadata"[0] == '-';
    assert BEGIN_MARKER[0] == '-' && BEGIN_MARKER[65] == '-';
    assert END_MARKER[0] == '-' && END_MARKER[33] == '-';
    TrimNothing(BEGIN_MARKER);
    TrimNothing(END_MARKER);
  }

  // ---- Entries of one image, in order ----

  function Group(xs: seq<Manifest>, image: string): seq<Manifest> {
    if xs == [] then []
    else if xs[0].image == image then [xs[0]] + Group(xs[1..], image)
    else Group(xs[1..], image)
  }

  ghost predicate Sorted(xs: seq<Manifest>) {
    forall i, j :: 0 <= i < j < |xs| ==> AtMost(xs[i].image, xs[j].image)
  }

  /** What Upsert promises: a sorted list in which the first entry of the image
      became m (or m was added) and the entries of every other image are as before. */
  ghost predicate UpsertOf(before: seq<Manifest>, m: Manifest, after: seq<Manifest>) {
    Sorted(after) && GroupsUpserted(before, m, after)
  }

  ghost predicate GroupsUpserted(before: seq<Manifest>, m: Manifest, after: seq<Manifest>) {
    && (forall k :: k != m.image ==> Group(after, k) == Group(before, k))
    && Group(after, m.image) == [m] + (if Group(before, m.image) == [] then [] else Group(before, m.image)[1..])
  }

  lemma {:induction false} GroupConcat(xs: seq<Manifest>, ys: seq<Manifest>, k: string)
    ensures Group(xs + ys, k) == Group(xs, k) + Group(ys, k)
  {
    if xs == [] {
      assert xs + ys == ys;
    } else {
      assert (xs + ys)[1..] == xs[1..] + ys && (xs + ys)[0] == xs[0];
      GroupConcat(xs[1..], ys, k);
    }
  }

  lemma {:induction false} GroupNonEmpty(xs: seq<Manifest>, i: nat)
    requires i < |xs|
    ensures Group(xs, xs[i].image) != []
  {
    if i > 0 {
      GroupNonEmpty(xs[1..], i - 1);
    }
  }

  lemma {:induction false} GroupMember(xs: seq<Manifest>, k: string)
    requires Group(xs, k) != []
    ensures exists i :: 0 <= i < |xs| && xs[i].image == k
  {
    if xs[0].image != k {
      GroupMember(xs[1..], k);
      var i :| 0 <= i < |xs[1..]| && xs[1..][i].image == k;
      assert xs[i + 1].image == k;
    }
  }

  /** The least image of a sorted list comes first. */
  lemma HeadAtMost(xs: seq<Manifest>, k: string)
    requires Sorted(xs) && Group(xs, k) != []
    ensures xs != [] && AtMost(xs[0].image, k)
  {
    GroupMember(xs, k);
  }

  /** A sorted list is determined by its groups. */
  lemma {:induction false} SortedByGroups(xs: seq<Manifest>, ys: seq<Manifest>)
    requires Sorted(xs) && Sorted(ys)
    requires forall k :: Group(xs, k) == Group(ys, k)
    ensures xs == ys
    decreases |xs|
  {
    if xs == [] {
      if ys != [] {
        GroupNonEmpty(ys, 0);
      }
    } else {
      GroupNonEmpty(xs, 0);
      HeadAtMost(ys, xs[0].image);
      GroupNonEmpty(ys, 0);
      HeadAtMost(xs, ys[0].image);
      if xs[0].image != ys[0].image {
        LessAsymmetric(xs[0].image, ys[0].image);
      }
      var image := xs[0].image;
      assert Group(xs, image)[0] == xs[0] && Group(ys, image)[0] == ys[0];
      forall k ensures Group(xs[1..], k) == Group(ys[1..], k) {
        if k == image {
          assert Group(xs, k)[1..] == Group(xs[1..], k) && Group(ys, k)[1..] == Group(ys[1..], k);
        } else {
          assert Group(xs, k) == Group(xs[1..], k) && Group(ys, k) == Group(ys[1..], k);
        }
      }
      SortedByGroups(xs[1..], ys[1..]);
      assert xs == [xs[0]] + xs[1..] && ys == [ys[0]] + ys[1..];
    }
  }

  /** The upserted entry is in the list. */
  lemma UpsertHolds(before: seq<Manifest>, m: Manifest, after: seq<Manifest>)
    requires UpsertOf(before, m, after)
    ensures m in after
  {
    assert Group(after, m.image)[0] == m;
    GroupIsPart(after, m.image, m);
  }

  lemma {:induction false} GroupIsPart(xs: seq<Manifest>, k: string, x: Manifest)
    requires x in Group(xs, k)
    ensures x in xs && x.image == k
  {
    if !(xs[0] == x && x.image == k) {
      GroupIsPart(xs[1..], k, x);
    }
  }

  lemma UpsertIsUnique(before: seq<Manifest>, m: Manifest, a: seq<Manifest>, b: seq<Manifest>)
    requires UpsertOf(before, m, a) && UpsertOf(before, m, b)
    ensures a == b
  {
    forall k ensures Group(a, k) == Group(b, k) {
      if k != m.image {
        assert Group(a, k) == Group(before, k);
      }
    }
    SortedByGroups(a, b);
  }

  lemma UpsertIsIdempotent(before: seq<Manifest>, m: Manifest, once: seq<Manifest>, twice: seq<Manifest>)
    requires UpsertOf(before, m, once)
    ensures UpsertOf(once, m, twice) <==> twice == once
  {
    assert Group(once, m.image)[1..] == if Group(before, m.image) == [] then [] else Group(before, m.image)[1..];
    assert UpsertOf(once, m, once);
    if UpsertOf(once, m, twice) {
      UpsertIsUnique(once, m, once, twice);
    }
  }

  /** Upserts of different images commute. */
  lemma UpsertsCommute(before: seq<Manifest>, m: Manifest, n: Manifest,
                       a: seq<Manifest>, ab: seq<Manifest>, b: seq<Manifest>, ba: seq<Manifest>)
    requires m.image != n.image
    requires UpsertOf(before, m, a) && UpsertOf(a, n, ab)
    requires UpsertOf(before, n, b) && UpsertOf(b, m, ba)
    ensures ab == ba
  {
    forall k ensures Group(ab, k) == Group(ba, k) {
      if k != m.image && k != n.image {
        assert Group(ab, k) == Group(a, k) == Group(before, k) == Group(b, k) == Group(ba, k);
      } else if k == m.image {
        assert Group(ab, k) == Group(a, k);
        assert Group(b, k) == Group(before, k);
      } else {
        assert Group(ba, k) == Group(b, k);
        assert Group(a, k) == Group(before, k);
      }
    }
    SortedByGroups(ab, ba);
  }

  // ---- sort.SliceStable by image ----

  function InsertSorted(xs: seq<Manifest>, m: Manifest): seq<Manifest> {
    if xs == [] || AtMost(xs[|xs| - 1].image, m.image) then xs + [m]
    else InsertSorted(xs[..|xs| - 1], m) + [xs[|xs| - 1]]
  }

  function SortStable(xs: seq<Manifest>): seq<Manifest> {
    if xs == [] then [] else InsertSorted(SortStable(xs[..|xs| - 1]), xs[|xs| - 1])
  }

  lemma AtMostTransitive(a: string, b: string, c: string)
    requires AtMost(a, b) && AtMost(b, c)
    ensures AtMost(a, c)
  {
    if a != b && b != c {
      LessTransitive(a, b, c);
    }
  }

  lemma AppendSorted(xs: seq<Manifest>, m: Manifest)
    requires Sorted(xs) && (xs == [] || AtMost(xs[|xs| - 1].image, m.image))
    ensures Sorted(xs + [m])
  {
    forall i | 0 <= i < |xs| ensures AtMost(xs[i].image, m.image) {
      if i < |xs| - 1 {
        AtMostTransitive(xs[i].image, xs[|xs| - 1].image, m.image);
      }
    }
  }

  lemma {:induction false} InsertSortedIsSorted(xs: seq<Manifest>, m: Manifest)
    requires Sorted(xs)
    ensures var r := InsertSorted(xs, m);
            Sorted(r) && r != [] && (r[|r| - 1] == m || (xs != [] && r[|r| - 1] == xs[|xs| - 1]))
  {
    if xs == [] || AtMost(xs[|xs| - 1].image, m.image) {
      AppendSorted(xs, m);
    } else {
      var last, init := xs[|xs| - 1], xs[..|xs| - 1];
      LessTotal(last.image, m.image);
      InsertSortedIsSorted(init, m);
      AppendSorted(InsertSorted(init, m), last);
    }
  }

  lemma {:induction false} InsertSortedGroups(xs: seq<Manifest>, m: Manifest, k: string)
    ensures Group(InsertSorted(xs, m), k) == Group(xs + [m], k)
  {
    GroupConcat(xs, [m], k);
    if !(xs == [] || AtMost(xs[|xs| - 1].image, m.image)) {
      var last, init := xs[|xs| - 1], xs[..|xs| - 1];
      InsertSortedGroups(init, m, k);
      GroupConcat(InsertSorted(init, m), [last], k);
      GroupConcat(init, [m], k);
      GroupConcat(init, [last], k);
      assert xs == init + [last];
    }
  }

  lemma {:induction false} SortStableIsStable(xs: seq<Manifest>)
    ensures Sorted(SortStable(xs))
    ensures forall k :: Group(SortStable(xs), k) == Group(xs, k)
  {
    if xs != [] {
      var init, last := xs[..|xs| - 1], xs[|xs| - 1];
      SortStableIsStable(init);
      InsertSortedIsSorted(SortStable(init), last);
      forall k ensures Group(SortStable(xs), k) == Group(xs, k) {
        InsertSortedGroups(SortStable(init), last, k);
        GroupConcat(SortStable(init), [last], k);
        GroupConcat(init, [last], k);
        assert xs == init + [last];
      }
    }
  }

  lemma ReplaceFirstGroup(xs: seq<Manifest>, i: nat, m: Manifest, k: string)
    requires i < |xs| && xs[i].image == m.image && forall j :: 0 <= j < i ==> xs[j].image != m.image
    ensures k != m.image ==> Group(xs[i := m], k) == Group(xs, k)
    ensures k == m.image ==> Group(xs, k) != [] && Group(xs[i := m], k) == [m] + Group(xs, k)[1..]
  {
    var front, back := xs[..i], xs[i + 1..];
    assert xs == front + [xs[i]] + back && xs[i := m] == front + [m] + back;
    GroupConcat(front, [xs[i]], k);
    GroupConcat(front + [xs[i]], back, k);
    GroupConcat(front, [m], k);
    GroupConcat(front + [m], back, k);
    if Group(front, m.image) != [] {
      GroupMember(front, m.image);
    }
  }

  lemma ReplaceFirst(xs: seq<Manifest>, i: nat, m: Manifest)
    requires i < |xs| && xs[i].image == m.image && forall j :: 0 <= j < i ==> xs[j].image != m.image
    ensures GroupsUpserted(xs, m, xs[i := m])
  {
    forall k ensures k != m.image ==> Group(xs[i := m], k) == Group(xs, k) {
      ReplaceFirstGroup(xs, i, m, k);
    }
    ReplaceFirstGroup(xs, i, m, m.image);
  }

  lemma AppendNew(xs: seq<Manifest>, m: Manifest)
    requires forall j :: 0 <= j < |xs| ==> xs[j].image != m.image
    ensures GroupsUpserted(xs, m, xs + [m])
  {
    forall k ensures Group(xs + [m], k) == Group(xs, k) + if k == m.image then [m] else [] {
      GroupConcat(xs, [m], k);
    }
    if Group(xs, m.image) != [] {
      GroupMember(xs, m.image);
    }
  }

  lemma SortUpserts(before: seq<Manifest>, m: Manifest, xs: seq<Manifest>)
    requires GroupsUpserted(before, m, xs)
    ensures UpsertOf(before, m, SortStable(xs))
  {
    SortStableIsStable(xs);
    forall k | k != m.image ensures Group(SortStable(xs), k) == Group(before, k) {
      assert Group(SortStable(xs), k) == Group(xs, k);
    }
  }

  class ImageManifestDocument {
    var schemaVersion: string
    var generator: string
    var images: seq<Manifest>

    constructor (content: Content)
      ensures Value() == content
    {
      schemaVersion, generator, images := content.schemaVersion, content.generator, content.images;
    }

    function Value(): Content
      reads this
    {
      Content(schemaVersion, generator, images)
    }

    method Upsert(manifest: Manifest)
      modifies this
      ensures schemaVersion == SCHEMA_VERSION && generator == GENERATOR
      ensures UpsertOf(old(images), manifest, images)
    {
      schemaVersion := SCHEMA_VERSION;
      generator := GENERATOR;
      var replaced := false;
      var i := 0;
      while i < |images|
        invariant 0 <= i <= |images|
        invariant !replaced && images == old(images)
        invariant forall j :: 0 <= j < i ==> images[j].image != manifest.image
      {
        if images[i].image == manifest.image {
          ReplaceFirst(images, i, manifest);
          images := images[i := manifest];
          replaced := true;
          break;
        }
        i := i + 1;
      }
      if !replaced {
        AppendNew(images, manifest);
        images := images + [manifest];
      }
      SortUpserts(old(images), manifest, images);
      images := SortStable(images);
    }
  }

  // ---- Comment lines ----

  function CommentLine(content: string): string {
    if content == "" then "#" else "# " + content
  }

  function UncommentLine(line: string): Option<string> {
    var trimmed := TrimLeftBlank(line);
    if trimmed == "" || trimmed[0] != '#' then None
    else Some(if |trimmed| > 1 && trimmed[1] == ' ' then trimmed[2..] else trimmed[1..])
  }

  predicate IsMarker(f: Format, line: string, marker: string) {
    UncommentLine(line).Some? && f.trim(UncommentLine(line).value) == marker
  }

  predicate IsMarkerContent(f: Format, line: string) {
    f.trim(line) == f.begin || f.trim(line) == f.end
  }

  predicate AllBlank(margin: string) { forall i :: 0 <= i < |margin| ==> IsBlank(margin[i]) }

  /** Behind any margin, uncommenting undoes commenting. */
  lemma UncommentComment(margin: string, content: string)
    requires AllBlank(margin)
    ensures UncommentLine(margin + CommentLine(content)) == Some(content)
  {
    var c := CommentLine(content);
    BlankRunBehind(margin, c);
    assert (margin + c)[|margin|..] == c && BlankRun(c) == 0;
    if content != "" {
      assert c[1] == ' ' && c[2..] == content;
    }
  }

  function Commented(body: seq<string>): (lines: seq<string>)
    ensures |lines| == |body|
    ensures forall i :: 0 <= i < |body| ==> lines[i] == CommentLine(body[i])
  {
    seq(|body|, i requires 0 <= i < |body| => CommentLine(body[i]))
  }

  function Wrapped(f: Format, body: seq<string>): seq<string> {
    [CommentLine(f.begin)] + Commented(body) + [CommentLine(f.end)]
  }

  predicate IsValidIndent(indent: int) { INDENT_MIN <= indent <= INDENT_MAX }

  /** What the YAML library makes of a document at an indent it honours. */
  function EncodedText(f: Format, content: Content, indent: int): Option<string> {
    f.encode(content.(schemaVersion := SCHEMA_VERSION, generator := GENERATOR),
             if IsValidIndent(indent) then indent else INDENT_DEFAULT)
  }

  /** The library is asked for the document under the program's own name and version, at
      an indent from 2 to 9: the one given if it is one, else 2. */
  lemma EncodedTextExactly(f: Format, content: Content, indent: int)
    ensures EncodedText(f, content, indent) ==
            f.encode(Content("v1", "image-updater", content.images), if indent in {2, 3, 4, 5, 6, 7, 8, 9} then indent
              else 2)
  {
  }

  function TrimNewlines(text: string): string { TrimRight(text, c => c == '\n') }

  /** The lines of that text, the newlines at its end cut off. */
  function EncodedBody(f: Format, content: Content, indent: int): Option<seq<string>> {
    match EncodedText(f, content, indent)
    case Some(text) => Some(Split(TrimNewlines(text), '\n'))
    case None => None
  }

  /** All that is assumed of the YAML library, for one document: the text it made of the
      document still decodes to it once the newlines at its end are cut off. */
  ghost predicate ReadsBack(f: Format, content: Content, indent: int) {
    match EncodedText(f, content, indent)
    case Some(text) => f.decode(TrimNewlines(text)) == Some(content)
    case None => true
  }

  lemma BodyJoins(f: Format, content: Content, indent: int, body: seq<string>)
    requires EncodedBody(f, content, indent) == Some(body)
    ensures EncodedText(f, content, indent).Some?
    ensures Join(body, "\n") == TrimNewlines(EncodedText(f, content, indent).value)
  {
    JoinSplit(TrimNewlines(EncodedText(f, content, indent).value), '\n');
  }

  predicate Guarded(f: Format, body: seq<string>) { forall i :: 0 <= i < |body| ==> !IsMarkerContent(f, body[i]) }

  method CarriesMarker(f: Format, body: seq<string>) returns (found: bool)
    ensures found <==> !Guarded(f, body)
  {
    for i := 0 to |body|
      invariant forall j :: 0 <= j < i ==> !IsMarkerContent(f, body[j])
    {
      if IsMarkerContent(f, body[i]) {
        return true;
      }
    }
    return false;
  }

  method RenderImageManifestComment(f: Format, content: Content, indent: int) returns (r: Option<seq<string>>)
    ensures var body := EncodedBody(f, content, indent);
            r == if body.Some? && Guarded(f, body.value) then Some(Wrapped(f, body.value)) else None
  {
    var document := content.(schemaVersion := SCHEMA_VERSION, generator := GENERATOR);
    var n := if IsValidIndent(indent) then indent else INDENT_DEFAULT;
    var encoded := f.encode(document, n);
    if encoded.None? {
      return None;
    }
    var body := Split(TrimNewlines(encoded.value), '\n');
    var marked := CarriesMarker(f, body);
    if marked {
      return None;
    }
    var lines := [CommentLine(f.begin)];
    for i := 0 to |body|
      invariant lines == [CommentLine(f.begin)] + Commented(body)[..i]
    {
      lines := lines + [CommentLine(body[i])];
    }
    assert Commented(body)[..|body|] == Commented(body);
    lines := lines + [CommentLine(f.end)];
    return Some(lines);
  }

  /** What a line of the block contributes: the comment's content, unless it is a marker. */
  function LineBody(f: Format, line: string): seq<string> {
    var content := UncommentLine(line);
    if content.None? || IsMarker(f, line, f.begin) || IsMarker(f, line, f.end) then [] else [content.value]
  }

  function Collect(part: string -> seq<string>, lines: seq<string>): seq<string> {
    if lines == [] then [] else Collect(part, lines[..|lines| - 1]) + part(lines[|lines| - 1])
  }

  function BodyOf(f: Format, lines: seq<string>): seq<string> {
    Collect(line => LineBody(f, line), lines)
  }

  method ParseImageManifestComment(f: Format, lines: seq<string>) returns (r: Option<Content>)
    ensures r == f.decode(Join(BodyOf(f, lines), "\n"))
  {
    var body := [];
    ghost var part := line => LineBody(f, line);
    for i := 0 to |lines|
      invariant body == Collect(part, lines[..i])
    {
      assert lines[..i + 1][..i] == lines[..i];
      var content := UncommentLine(lines[i]);
      if content.None? || IsMarker(f, lines[i], f.begin) || IsMarker(f, lines[i], f.end) {
        continue;
      }
      body := body + [content.value];
    }
    assert lines[..|lines|] == lines;
    r := f.decode(Join(body, "\n"));
  }

  // ---- The block round trip ----

  /** lines is the rendered body, each line behind a margin of its own. */
  ghost predicate IndentedBlock(f: Format, body: seq<string>, lines: seq<string>) {
    && |lines| == |body| + 2
    && forall i :: 0 <= i < |lines| ==> IsIndented(lines[i], Wrapped(f, body)[i])
  }

  ghost predicate IsIndented(line: string, content: string) {
    exists margin :: AllBlank(margin) && line == margin + content
  }

  function BlockContent(f: Format, body: seq<string>, i: nat): string
    requires i < |body| + 2
  {
    if i == 0 then f.begin else if i == |body| + 1 then f.end else body[i - 1]
  }

  lemma BlockLine(f: Format, body: seq<string>, lines: seq<string>, i: nat)
    requires DistinctMarkers(f) && Guarded(f, body) && IndentedBlock(f, body, lines) && i < |lines|
    ensures UncommentLine(lines[i]) == Some(BlockContent(f, body, i))
    ensures IsMarker(f, lines[i], f.begin) <==> i == 0
    ensures IsMarker(f, lines[i], f.end) <==> i == |body| + 1
    ensures LineBody(f, lines[i]) == if 0 < i <= |body| then [body[i - 1]] else []
  {
    var content := BlockContent(f, body, i);
    assert IsIndented(lines[i], Wrapped(f, body)[i]);
    var margin :| AllBlank(margin) && lines[i] == margin + Wrapped(f, body)[i];
    assert Wrapped(f, body)[i] == CommentLine(content) by {
      if 0 < i <= |body| {
        assert Wrapped(f, body)[(i - 1) + 1] == CommentLine(body[i - 1]);
      }
    }
    UncommentComment(margin, content);
    assert 0 < i <= |body| ==> !IsMarkerContent(f, body[i - 1]);
  }

  lemma {:induction false} CollectMiddle(part: string -> seq<string>, lines: seq<string>, body: seq<string>, i: nat)
    requires |lines| == |body| + 2 && i <= |lines|
    requires forall j :: 0 <= j < |lines| ==> part(lines[j]) == if 0 < j <= |body| then [body[j - 1]] else []
    ensures Collect(part, lines[..i]) == if i == 0 then [] else if i <= |body| + 1 then body[..i - 1] else body
  {
    if i > 0 {
      CollectMiddle(part, lines, body, i - 1);
      assert lines[..i][..i - 1] == lines[..i - 1];
    }
  }

  /** Whatever the margins, the body read back is the body rendered and the
      markers are the first and the last line only. */
  lemma BlockRoundTrip(f: Format, body: seq<string>, lines: seq<string>)
    requires DistinctMarkers(f) && Guarded(f, body) && IndentedBlock(f, body, lines)
    ensures BodyOf(f, lines) == body
    ensures forall i :: 0 <= i < |lines| ==>
              (IsMarker(f, lines[i], f.begin) <==> i == 0) && (IsMarker(f, lines[i], f.end) <==> i == |lines| - 1)
    ensures forall i :: 0 <= i < |lines| ==> UncommentLine(lines[i]).Some?
  {
    forall i | 0 <= i < |lines|
      ensures (IsMarker(f, lines[i], f.begin) <==> i == 0) && (IsMarker(f, lines[i], f.end) <==> i == |lines| - 1)
              && UncommentLine(lines[i]).Some?
    {
      BlockLine(f, body, lines, i);
    }
    forall i | 0 <= i < |lines| ensures LineBody(f, lines[i]) == if 0 < i <= |body| then [body[i - 1]] else [] {
      BlockLine(f, body, lines, i);
    }
    CollectMiddle(line => LineBody(f, line), lines, body, |lines|);
    assert lines[..|lines|] == lines;
  }

  /** The guard is exact: a body with a marker line in it would not survive. */
  lemma UnguardedBodyIsLost(f: Format, body: seq<string>)
    requires DistinctMarkers(f) && !Guarded(f, body)
    ensures BodyOf(f, Wrapped(f, body)) != body
  {
    var lines := Wrapped(f, body);
    var k :| 0 <= k < |body| && IsMarkerContent(f, body[k]);
    CommentedMarker(f, f.begin);
    CommentedMarker(f, body[k]);
    CommentedMarker(f, f.end);
    assert lines[k + 1] == Commented(body)[k];
    DroppedThree(line => LineBody(f, line), lines, k);
  }

  lemma DroppedThree(part: string -> seq<string>, lines: seq<string>, k: nat)
    requires k + 2 < |lines|
    requires part(lines[0]) == [] && part(lines[k + 1]) == [] && part(lines[|lines| - 1]) == []
    requires forall i :: 0 <= i < |lines| ==> |part(lines[i])| <= 1
    ensures |Collect(part, lines)| + 2 < |lines|
  {
    var at := {0, k + 1, |lines| - 1};
    assert |at| == 3;
    CollectShortens(part, lines, at);
  }

  lemma CommentedMarker(f: Format, content: string)
    requires IsMarkerContent(f, content)
    ensures LineBody(f, CommentLine(content)) == []
  {
    assert CommentLine(content) == "" + CommentLine(content);
    UncommentComment("", content);
  }

  lemma {:induction false} CollectShortens(part: string -> seq<string>, lines: seq<string>, at: set<int>)
    requires forall i :: i in at ==> 0 <= i < |lines| && part(lines[i]) == []
    requires forall i :: 0 <= i < |lines| ==> |part(lines[i])| <= 1
    ensures |Collect(part, lines)| + |at| <= |lines|
  {
    if lines == [] {
      assert forall i :: i !in at;
      assert at == {};
    } else {
      var n := |lines| - 1;
      CollectShortens(part, lines[..n], at - {n});
    }
  }
}
