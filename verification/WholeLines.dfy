/** No edit breaks a line in two or leaves an empty last line, so that what a patch writes
    is read back line by line: tags and metadata values with newlines in them included. */
module WholeLines {
  import opened Text
  import opened Scalar
  import opened EditScript
  import opened Layout
  import LineFile
  import Metadata
  import CommentBlock
  import Patching

  predicate Whole(line: string) { Free(line, '\n') }

  predicate Written(line: string) { Free(line, '\n') && line != "" }

  /** Every line is whole, and the last one is not empty where no newline ends the file. */
  predicate Readable(lines: seq<string>, trailingNewline: bool) {
    && lines != [] && (forall i :: 0 <= i < |lines| ==> Whole(lines[i]))
    && (trailingNewline || lines[|lines| - 1] != "")
  }

  /** Readable lines are read back from the text they are written as. */
  lemma ReadableReadsBack(lines: seq<string>, trailingNewline: bool)
    requires Readable(lines, trailingNewline)
    ensures LineFile.Read(LineFile.Written(LineFile.File(lines, trailingNewline))) ==
              LineFile.File(lines, trailingNewline)
  {
    LineFile.LinesReadBack(LineFile.File(lines, trailingNewline));
  }

  /** So are the lines of any text there is. */
  lemma TextIsReadable(text: string)
    requires text != ""
    ensures Readable(LineFile.Read(text).lines, LineFile.Read(text).trailingNewline)
  {
    var lines := Split(text, '\n');
    JoinSplit(text, '\n');
    if |lines| > 1 {
      LineFile.JoinedEnd(lines);
    }
  }

  // ---- Setting the tags ----

  lemma ApplyReadable(lines: seq<string>, e: Edit<string>, trailingNewline: bool)
    requires Readable(lines, trailingNewline) && Fits(e, |lines|) && Written(e.line)
    ensures Readable(Apply(lines, e), trailingNewline)
  {
    var out := Apply(lines, e);
    forall i | 0 <= i < |out| ensures Whole(out[i]) {
      if e.Insert? {
        assert out[i] == if i < e.at then lines[i] else if i == e.at then e.line else lines[i - 1];
      } else {
        assert out[i] == if i == e.at then e.line else lines[i];
      }
    }
  }

  lemma {:induction false} BottomUpReadable(lines: seq<string>, es: seq<Edit<string>>, k: nat, trailingNewline: bool)
    requires k <= |es| && Ordered(es, |lines|) && Readable(lines, trailingNewline)
    requires forall e :: e in es ==> Written(e.line)
    ensures Readable(BottomUp(lines, es, k), trailingNewline)
    decreases |es| - k
  {
    if k < |es| {
      BottomUpReadable(lines, es, k + 1, trailingNewline);
      assert es[k] in es;
      ApplyReadable(BottomUp(lines, es, k + 1), es[k], trailingNewline);
    }
  }

  lemma FormatIsWritten(lib: Library, value: string)
    requires Sound(lib)
    ensures Written(FormatScalar(lib, value))
  {
    FormatOneLine(lib, value);
    FormatEncodes(lib, value);
    StyleOfToken(FormatStyle(lib, value), FormatScalar(lib, value), value);
  }

  lemma AroundIsWritten(before: string, token: string, after: string)
    requires Whole(before) && Written(token) && Whole(after)
    ensures Written(before + token + after)
  {
  }

  lemma EditIsWritten(lib: Library, lines: seq<string>, item: Item, tag: string)
    requires Sound(lib) && forall i :: 0 <= i < |lines| ==> Whole(lines[i])
    requires item.tag.Some? ==> Located(lines, item.tag.value)
    ensures Written(ItemEdit(lib, lines, item, tag).line)
  {
    FormatIsWritten(lib, tag);
    match item.tag
    case Some(v) =>
      var line := lines[v.line - 1];
      assert Whole(line);
      AroundIsWritten(line[..v.column - 1], FormatScalar(lib, tag), line[TokenEnd(line, v)..]);
    case None =>
      AroundIsWritten(Spaces(item.column - 1) + NEW_TAG + ": ", FormatScalar(lib, tag), "");
      assert Entry(lib, item, tag) + "" == Entry(lib, item, tag);
  }

  lemma RetaggedReadable(lib: Library, lines: seq<string>, keyLine: int, items: seq<Item>, tags: map<int, string>,
                         trailingNewline: bool)
    requires Sound(lib) && Laid(lines, keyLine, items) && Readable(lines, trailingNewline)
    ensures Readable(Retagged(lib, lines, keyLine, items, tags), trailingNewline)
  {
    var es := Script(lib, lines, keyLine, items, tags, 0);
    ScriptOrdered(lib, lines, keyLine, items, tags, 0);
    forall e | e in es ensures Written(e.line) {
      var i := ScriptOnlyEdits(lib, lines, keyLine, items, tags, 0, e);
      EditIsWritten(lib, lines, items[i], tags[i]);
    }
    BottomUpReadable(lines, es, 0, trailingNewline);
  }

  // ---- The metadata block ----

  predicate WholeMarkers(f: Metadata.Format) { Whole(f.begin) && Whole(f.end) }

  const MARKER_HEAD := "--- BEGIN image-updater metadata"

  lemma MarkerHeadIsWhole()
    ensures Whole(MARKER_HEAD)
  {
    assert |MARKER_HEAD| == 32;
  }

  lemma BeginMarkerIsWhole()
    ensures Whole(Metadata.BEGIN_MARKER)
  {
    var marker := Metadata.BEGIN_MARKER;
    MarkerHeadIsWhole();
    assert |marker| == 66;
    forall i | 0 <= i < 66 ensures marker[i] != '\n' {
      assert i < 32 ==> marker[i] == MARKER_HEAD[i];
    }
  }

  lemma ProgramMarkersAreWhole(f: Metadata.Format)
    requires f.begin == Metadata.BEGIN_MARKER && f.end == Metadata.END_MARKER
    ensures WholeMarkers(f)
  {
    BeginMarkerIsWhole();
    assert |Metadata.END_MARKER| == 34;
  }

  lemma CommentIsWhole(content: string)
    requires Whole(content)
    ensures Whole(Metadata.CommentLine(content))
  {
  }

  lemma BlockIsWhole(f: Metadata.Format, content: Metadata.Content, indent: int, body: seq<string>, margin: nat)
    requires WholeMarkers(f) && Metadata.EncodedBody(f, content, indent) == Some(body)
    ensures var block := CommentBlock.Indented(margin, Metadata.Wrapped(f, body));
            forall i :: 0 <= i < |block| ==> Whole(block[i])
  {
    var lines := Metadata.Wrapped(f, body);
    forall i | 0 <= i < |lines| ensures Whole(Spaces(margin) + lines[i]) {
      var content := Metadata.BlockContent(f, body, i);
      assert Whole(content);
      assert lines[i] == Metadata.CommentLine(content);
      CommentIsWhole(content);
    }
  }

  lemma UpsertedReadable(f: Metadata.Format, s: CommentBlock.State, m: Metadata.Manifest, indent: int,
                         t: CommentBlock.State,
                      w: CommentBlock.Splice, trailingNewline: bool)
    requires WholeMarkers(f) && CommentBlock.Upserted(f, s, m, indent, t, w)
    requires 1 <= s.keyLine <= |s.lines| && Readable(s.lines, trailingNewline)
    ensures Readable(t.lines, trailingNewline)
  {
    var block := CommentBlock.Indented(s.indent, Metadata.Wrapped(f, w.body));
    BlockIsWhole(f, CommentBlock.Updated(w.after), indent, w.body, s.indent);
    SplicedReadable(s.lines, w.from, w.to, block, trailingNewline);
  }

  lemma SplicedReadable(lines: seq<string>, from: int, to: int, block: seq<string>, trailingNewline: bool)
    requires 0 <= from <= to < |lines| && Readable(lines, trailingNewline)
    requires forall i :: 0 <= i < |block| ==> Whole(block[i])
    ensures Readable(lines[..from] + block + lines[to..], trailingNewline)
  {
    var out := lines[..from] + block + lines[to..];
    forall i | 0 <= i < |out| ensures Whole(out[i]) {
      assert out[i] == if i < from then lines[i] else if i < from + |block| then block[i - from]
             else lines[i - from - |block| + to];
    }
  }

  /** A patch writes a file that is read back as the lines it has. */
  lemma PatchReadsBackWhole(lib: Library, f: Metadata.Format, s: CommentBlock.State, tags: map<int, string>,
                            manifest: Option<Metadata.Manifest>, indent: int, t: CommentBlock.State,
                            w: CommentBlock.Splice,
                            trailingNewline: bool)
    requires Sound(lib) && WholeMarkers(f) && Readable(s.lines, trailingNewline)
    requires Patching.Rewrote(lib, f, s, tags, manifest, indent, t, w)
    ensures var file := LineFile.File(t.lines, trailingNewline); LineFile.Read(LineFile.Written(file)) == file
  {
    RetaggedReadable(lib, s.lines, s.keyLine, Summaries(s.nodes), tags, trailingNewline);
    var mid := Patching.WithTags(lib, s, tags);
    if t != mid {
      RetaggedLength(lib, s.lines, s.keyLine, Summaries(s.nodes), tags);
      UpsertedReadable(f, mid, manifest.value, indent, t, w, trailingNewline);
    }
    ReadableReadsBack(t.lines, trailingNewline);
  }
}
