/** A file kept as lines: how document.go of the kustomize patcher takes a text apart
    and puts it together again. */
module LineFile {
  import opened Text

  datatype File = File(lines: seq<string>, trailingNewline: bool)

  predicate EndsInNewline(text: string) { text != "" && text[|text| - 1] == '\n' }

  function Read(text: string): (f: File)
    ensures f.lines != [] && forall i :: 0 <= i < |f.lines| ==> Free(f.lines[i], '\n')
  {
    if EndsInNewline(text) then File(Split(text[..|text| - 1], '\n'), true) else File(Split(text, '\n'), false)
  }

  function Written(f: File): string {
    Join(f.lines, "\n") + if f.trailingNewline then "\n" else ""
  }

  /** A file that is not edited is written back as it was. */
  lemma TextReadsBack(text: string)
    ensures Written(Read(text)) == text
  {
    if EndsInNewline(text) {
      var body := text[..|text| - 1];
      JoinSplit(body, '\n');
      assert body + "\n" == text;
    } else {
      JoinSplit(text, '\n');
      assert text + "" == text;
    }
  }

  /** Where a text of several lines ends. */
  lemma {:induction false} JoinedEnd(lines: seq<string>)
    requires |lines| > 1
    ensures var text := Join(lines, "\n");
            text != "" && text[|text| - 1] == var last := lines[|lines| - 1]; if last == "" then '\n'
              else last[|last| - 1]
  {
    if |lines| > 2 {
      JoinedEnd(lines[1..]);
    } else {
      assert Join(lines[1..], "\n") == lines[1];
    }
  }

  /** Edited lines are read back as they were written, unless the file lost its newline
      and ends in an empty line. */
  lemma LinesReadBack(f: File)
    requires f.lines != [] && forall i :: 0 <= i < |f.lines| ==> Free(f.lines[i], '\n')
    ensures Read(Written(f)) == f <==> f.trailingNewline || |f.lines| == 1 || f.lines[|f.lines| - 1] != ""
  {
    var body := Join(f.lines, "\n");
    SplitJoin(f.lines, '\n');
    if f.trailingNewline {
      assert (body + "\n")[..|body|] == body;
    } else {
      assert Written(f) == body;
      if |f.lines| > 1 {
        JoinedEnd(f.lines);
      }
    }
  }
}
