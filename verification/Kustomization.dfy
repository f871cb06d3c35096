/** The line editor: internal/infrastructure/manifest/kustomize/document.go. */
module Kustomization {
  import opened Text
  import opened Scalar
  import opened EditScript
  import opened Layout
  import Sorting
  import Metadata
  import CommentBlock

  datatype Outcome = Done | Failed(why: Problem)

  datatype Problem = IndexOutOfRange | NotAMapping | NotAScalar | LineOutOfRange | ColumnOutOfRange | NoToken |
      NoLastEntry

  /** A scan of a located scalar from its column on ends where its token ends. */
  lemma ScanOfToken(line: string, node: Node, rest: string, length: Option<nat>)
    requires HasToken(line, node) && rest == line[node.column - 1..]
    requires forall e, v :: Token(rest, 0, e, node.style, v) ==> length == Some(e)
    ensures length.Some? && node.column - 1 + length.value == TokenEnd(line, node)
  {
    TokenAtFront(line, node.column - 1, TokenEnd(line, node), node.style, node.value);
  }

  /** The line with the text of a token of the given length at the node replaced. */
  function Spliced(lib: Library, line: string, node: Node, length: nat, value: string): string
    requires node.column - 1 + length <= |line|
  {
    line[..node.column - 1] + FormatScalar(lib, value) + line[node.column - 1 + length..]
  }

  /** What a scan from the node on has measured. */
  lemma Measured(lines: seq<string>, node: Node, rest: string, length: Option<nat>)
    requires 0 < node.line <= |lines| && node.column - 1 <= |lines[node.line - 1]|
    requires rest == lines[node.line - 1][node.column - 1..]
    requires forall e, v :: Token(rest, 0, e, node.style, v) ==> length == Some(e)
    requires node.style == Plain ==> length == Some(PlainTokenLength(rest))
    ensures Located(lines, node) ==>
              length.Some? && node.column - 1 + length.value == TokenEnd(lines[node.line - 1], node)
    ensures EmptyAt(lines, node) ==> length == Some(0)
  {
    if Located(lines, node) {
      ScanOfToken(lines[node.line - 1], node, rest, length);
    }
    if EmptyAt(lines, node) {
      Scalar.NoToken(rest);
    }
  }

  lemma SplicedTag(lib: Library, lines: seq<string>, node: Node, length: nat, value: string)
    requires Located(lines, node) && node.column - 1 + length == TokenEnd(lines[node.line - 1], node)
    ensures Spliced(lib, lines[node.line - 1], node, length, value) == Rewritten(lib, lines, node, value)
  {
  }

  lemma SplicedEmpty(lib: Library, lines: seq<string>, node: Node, value: string)
    requires EmptyAt(lines, node)
    ensures Spliced(lib, lines[node.line - 1], node, 0, value) == FilledIn(lib, lines, node, value)
  {
  }

  /** The spliced line is the one called for. */
  lemma SplicedRight(lib: Library, lines: seq<string>, node: Node, length: nat, value: string, out: string)
    requires 0 < node.line <= |lines| && node.column - 1 + length <= |lines[node.line - 1]|
    requires out == Spliced(lib, lines[node.line - 1], node, length, value)
    requires Located(lines, node) ==> node.column - 1 + length == TokenEnd(lines[node.line - 1], node)
    requires EmptyAt(lines, node) ==> length == 0
    ensures Located(lines, node) ==>
              out == Rewritten(lib, lines, node, value) && SwappedAt(lib, lines[node.line - 1], node, value, out)
    ensures EmptyAt(lines, node) ==> out == FilledIn(lib, lines, node, value)
  {
    if Located(lines, node) {
      SplicedTag(lib, lines, node, length, value);
      RewrittenSwaps(lib, lines, node, value);
    }
    if EmptyAt(lines, node) {
      SplicedEmpty(lib, lines, node, value);
    }
  }

  /** The line a scalar token is swapped on, or why it cannot be. */
  method SwapToken(lib: Library, lines: seq<string>, node: Node, value: string) returns (r: Result<string, Problem>)
    requires node.kind == ScalarNode && 0 < node.line <= |lines|
    ensures r.Ok? ==> node.column - 1 <= |lines[node.line - 1]|
    ensures r.Ok? ==> lines[node.line - 1][..node.column - 1] + FormatScalar(lib, value) <= r.value
    ensures Located(lines, node) ==>
              r == Ok(Rewritten(lib, lines, node, value)) && SwappedAt(lib, lines[node.line - 1], node, value, r.value)
    ensures EmptyAt(lines, node) ==> r == Ok(FilledIn(lib, lines, node, value))
  {
    var line := lines[node.line - 1];
    var start := node.column - 1;
    if start < 0 || start > |line| {
      return Err(ColumnOutOfRange);
    }
    var rest := line[start..];
    var length := ScalarTokenLength(rest, node.style);
    Measured(lines, node, rest, length);
    if length.None? {
      return Err(NoToken);
    }
    var swapped := line[..start] + FormatScalar(lib, value) + line[start + length.value..];
    SplicedRight(lib, lines, node, length.value, value, swapped);
    r := Ok(swapped);
  }

  method LastContentLine(content: seq<Node>) returns (lastLine: int)
    ensures lastLine == LastLine(content)
  {
    lastLine := 0;
    for i := 0 to |content|
      invariant lastLine == LastLine(content[..i])
    {
      assert content[..i + 1][..i] == content[..i];
      if content[i].line > lastLine {
        lastLine := content[i].line;
      }
    }
    assert content[..|content|] == content;
  }

  /** The value of the first newTag key. */
  method FindNewTag(content: seq<Node>) returns (v: Option<Node>)
    ensures v == TagNode(content)
  {
    var i := 0;
    while i + 1 < |content|
      invariant 0 <= i
      invariant i <= |content| ==> TagNode(content) == TagNode(content[i..])
      invariant i > |content| ==> TagNode(content) == None
    {
      if content[i].value == NEW_TAG {
        return Some(content[i + 1]);
      }
      assert content[i..][2..] == content[i + 2..];
      i := i + 2;
    }
    return None;
  }

  class Document {
    const lib: Library
    const format: Metadata.Format
    var lines: seq<string>
    var imagesKeyLine: int
    var imagesIndent: nat
    var imageNodes: seq<Node>

    constructor (lib: Library, format: Metadata.Format, lines: seq<string>, keyLine: int, indent: nat, nodes: seq<Node>)
      ensures this.lib == lib && this.format == format
      ensures State() == CommentBlock.State(lines, keyLine, indent, nodes)
    {
      this.lib, this.format := lib, format;
      this.lines, imagesKeyLine, imagesIndent, imageNodes := lines, keyLine, indent, nodes;
    }

    function State(): CommentBlock.State
      reads this
    {
      CommentBlock.State(lines, imagesKeyLine, imagesIndent, imageNodes)
    }

    /** Swaps the token of a located scalar; whatever else happens, only one line is
        touched and its text in front of the node stays. */
    method ReplaceScalar(node: Node, value: string) returns (r: Outcome)
      modifies `lines
      ensures r.Failed? ==> lines == old(lines)
      ensures r.Done? ==>
                && node.kind == ScalarNode && 0 < node.line <= |old(lines)| == |lines|
                && (forall p :: 0 <= p < |lines| && p != node.line - 1 ==> lines[p] == old(lines)[p])
                && node.column - 1 <= |old(lines)[node.line - 1]|
                && old(lines)[node.line - 1][..node.column - 1] + FormatScalar(lib, value) <= lines[node.line - 1]
      ensures Located(old(lines), node) ==>
                r == Done && lines == old(lines)[node.line - 1 := Rewritten(lib, old(lines), node, value)]
      ensures EmptyAt(old(lines), node) ==>
                r == Done && lines == old(lines)[node.line - 1 := FilledIn(lib, old(lines), node, value)]
    {
      if node.kind != ScalarNode {
        return Failed(NotAScalar);
      }
      if node.line < 1 || node.line > |lines| {
        return Failed(LineOutOfRange);
      }
      var swapped := SwapToken(lib, lines, node, value);
      if swapped.Err? {
        return Failed(swapped.error);
      }
      lines := lines[node.line - 1 := swapped.value];
      return Done;
    }

    method AppendMappingEntry(item: Node, value: string) returns (r: Outcome)
      modifies `lines
      ensures var last := LastLine(item.content);
              if 0 < last <= |old(lines)|
              then
                && r == Done && lines == Apply(old(lines), Insert(last, Entry(lib, Summary(item), value)))
                && IsTagEntry(lib, lines[last], item.column, value)
              else r == Failed(NoLastEntry) && lines == old(lines)
    {
      var lastLine := LastContentLine(item.content);
      if lastLine <= 0 || lastLine > |lines| {
        return Failed(NoLastEntry);
      }
      var entry := Spaces(item.column - 1) + NEW_TAG + ": " + FormatScalar(lib, value);
      EntryIsTagEntry(lib, Summary(item), value);
      lines := lines[..lastLine] + [entry] + lines[lastLine..];
      return Done;
    }

    /** Sets the tag of one item: on a laid-out item, the one edit it calls for. */
    method SetNewTag(index: int, tag: string) returns (r: Outcome)
      modifies `lines
      ensures !(0 <= index < |imageNodes|) ==> r == Failed(IndexOutOfRange)
      ensures 0 <= index < |imageNodes| && imageNodes[index].kind != MappingNode ==> r == Failed(NotAMapping)
      ensures r.Failed? ==> lines == old(lines)
      ensures |old(lines)| <= |lines|
      ensures 0 <= index < |imageNodes| && Editable(old(lines), Summary(imageNodes[index])) ==>
                var e := ItemEdit(lib, old(lines), Summary(imageNodes[index]), tag);
                r == Done && Fits(e, |old(lines)|) && lines == Apply(old(lines), e)
      ensures 0 <= index < |imageNodes| && imageNodes[index].kind == MappingNode ==>
                var v := TagNode(imageNodes[index].content);
                v.Some? && EmptyAt(old(lines), v.value) ==>
                  r == Done && lines == old(lines)[v.value.line - 1 := FilledIn(lib, old(lines), v.value, tag)]
    {
      if index < 0 || index >= |imageNodes| {
        return Failed(IndexOutOfRange);
      }
      var item := imageNodes[index];
      if item.kind != MappingNode {
        return Failed(NotAMapping);
      }
      var v := FindNewTag(item.content);
      match v {
        case Some(node) => r := ReplaceScalar(node, tag);
        case None => r := AppendMappingEntry(item, tag);
      }
    }

    /** Sets the tags of several items, from the bottom up. On a block-style images list
        the result is the file with every item edited; nothing else of the document changes. */
    method SetNewTags(tags: map<int, string>) returns (r: Outcome)
      modifies `lines
      ensures |old(lines)| <= |lines|
      ensures r == Done ==> forall i :: i in tags ==> 0 <= i < |imageNodes| && imageNodes[i].kind == MappingNode
      ensures Laid(old(lines), imagesKeyLine, Summaries(imageNodes))
              && (forall i :: i in tags ==> 0 <= i < |imageNodes|) ==>
                && r == Done
                && lines == Retagged(lib, old(lines), imagesKeyLine, Summaries(imageNodes), tags)
    {
      var keys := Sorting.SortedDescending(tags.Keys);
      ghost var items := Summaries(imageNodes);
      ghost var laid := Laid(lines, imagesKeyLine, items) && forall i :: i in tags ==> 0 <= i < |items|;
      r := SetInOrder(keys, tags, laid);
      if laid {
        AllEdited(lib, old(lines), imagesKeyLine, items, tags, keys, lines);
      }
    }

    method SetInOrder(keys: seq<int>, tags: map<int, string>, ghost laid: bool) returns (r: Outcome)
      requires forall k :: k in tags <==> k in keys
      requires laid ==> KeysOf(tags, keys, |imageNodes|)
      requires laid ==> EditedBy(lib, lines, imagesKeyLine, Summaries(imageNodes), tags, keys, 0, lines)
      modifies `lines
      ensures |old(lines)| <= |lines|
      ensures r == Done ==> forall k :: k in tags ==> 0 <= k < |imageNodes| && imageNodes[k].kind == MappingNode
      ensures laid ==> r == Done && EditedBy(lib, old(lines), imagesKeyLine, Summaries(imageNodes), tags, keys,
                                             |keys|, lines)
    {
      ghost var items, before, now := Summaries(imageNodes), lines, lines;
      for n := 0 to |keys|
        invariant |before| <= |lines| && now == lines
        invariant forall i :: 0 <= i < n ==> 0 <= keys[i] < |imageNodes| && imageNodes[keys[i]].kind == MappingNode
        invariant laid ==> EditedBy(lib, before, imagesKeyLine, items, tags, keys, n, now)
      {
        if laid {
          NextEdit(lib, before, imagesKeyLine, items, tags, keys, n, now);
          assert items[keys[n]] == Summary(imageNodes[keys[n]]);
          now := Apply(now, ItemEdit(lib, now, items[keys[n]], tags[keys[n]]));
        }
        assert keys[n] in keys;
        var outcome := SetNewTag(keys[n], tags[keys[n]]);
        if outcome.Failed? {
          return outcome;
        }
        assert 0 <= keys[n] < |imageNodes| && imageNodes[keys[n]].kind == MappingNode;
        if laid {
          assert lines == now;
        } else {
          now := lines;
        }
      }
      return Done;
    }

    method HeadCommentRange() returns (start: int, end: int)
      requires 1 <= imagesKeyLine <= |lines|
      ensures end == imagesKeyLine - 1 && CommentBlock.HeadComments(lines, start, end)
    {
      end := imagesKeyLine - 1;
      start := end;
      while start > 0 && CommentBlock.IsComment(lines[start - 1])
        invariant 0 <= start <= end
        invariant forall i :: start <= i < end ==> CommentBlock.IsComment(lines[i])
      {
        start := start - 1;
      }
    }

    method Shift(delta: int)
      modifies `imagesKeyLine, `imageNodes
      ensures imagesKeyLine == old(imagesKeyLine) + delta
      ensures imageNodes == ShiftNodes(old(imageNodes), delta)
    {
      if delta == 0 {
        ShiftByNothing(imageNodes);
        return;
      }
      imagesKeyLine := imagesKeyLine + delta;
      imageNodes := ShiftNodes(imageNodes, delta);
    }

    /** Merges manifest into the metadata block above the images key. It fails, and
        then leaves the document alone, exactly when the block cannot be rendered. */
    method UpsertImageManifest(manifest: Metadata.Manifest, indent: int)
      returns (ok: bool, ghost w: CommentBlock.Splice)
      requires 1 <= imagesKeyLine <= |lines| && Metadata.DistinctMarkers(format)
      modifies this
      ensures CommentBlock.Located(format, old(State()), manifest, w)
      ensures ok ==> CommentBlock.Upserted(format, old(State()), manifest, indent, State(), w)
      ensures !ok ==> State() == old(State())
      ensures var body := Metadata.EncodedBody(format, CommentBlock.Updated(w.after), indent);
              ok <==> body.Some? && Metadata.Guarded(format, body.value)
    {
      ghost var before := State();
      var from, to, rendered;
      from, to, rendered, w := PlanSplice(manifest, indent);
      if rendered.None? {
        return false, w;
      }
      var block := CommentBlock.Indented(imagesIndent, rendered.value);
      assert |block| == |w.body| + 2 && |block| - (to - from) == CommentBlock.Delta(w);
      lines := lines[..from] + block + lines[to..];
      Shift(|block| - (to - from));
      CommentBlock.SpliceUpserts(format, before, manifest, indent, State(), w);
      return true, w;
    }

    /** Where the block goes and what it will hold; reads the document only. Without a
        block to replace the splice is empty and sits on top of the head comments. */
    method PlanSplice(manifest: Metadata.Manifest, indent: int)
      returns (from: int, to: int, rendered: Option<seq<string>>, ghost w: CommentBlock.Splice)
      requires 1 <= imagesKeyLine <= |lines| && Metadata.DistinctMarkers(format)
      ensures CommentBlock.Located(format, State(), manifest, w) && w.from == from && w.to == to
      ensures var body := Metadata.EncodedBody(format, CommentBlock.Updated(w.after), indent);
              if body.Some? && Metadata.Guarded(format, body.value)
              then w.body == body.value && rendered == Some(Metadata.Wrapped(format, w.body))
              else rendered == None
    {
      var regionStart, regionEnd := HeadCommentRange();
      var found;
      from, to, found := FindManifestBlock(format, lines, regionStart, regionEnd);
      var content := Metadata.Content("", "", []);
      if found {
        content := ExistingContent(format, lines[from..to]);
      } else {
        from, to := regionStart, regionStart;
      }
      var document := new Metadata.ImageManifestDocument(content);
      document.Upsert(manifest);
      w := CommentBlock.Splice(regionStart, from, to, content.images, document.images, []);
      rendered := Metadata.RenderImageManifestComment(format, document.Value(), indent);
      if rendered.Some? {
        w := w.(body := Metadata.EncodedBody(format, document.Value(), indent).value);
      }
    }
  }

  /** What the block says, nothing when it is not a document. */
  method ExistingContent(f: Metadata.Format, block: seq<string>) returns (content: Metadata.Content)
    ensures content.images == CommentBlock.EntriesOf(f, block)
  {
    var parsed := Metadata.ParseImageManifestComment(f, block);
    content := if parsed.Some? then parsed.value else Metadata.Content("", "", []);
  }

  method FindManifestBlock(f: Metadata.Format, lines: seq<string>, start: int, end: int)
    returns (from: int, to: int, found: bool)
    requires 0 <= start <= end <= |lines| && Metadata.DistinctMarkers(f)
    ensures found ==> CommentBlock.FirstBlock(f, lines, start, end, from, to)
    ensures !found ==> CommentBlock.NoBlock(f, lines, start, end)
  {
    var blockStart := -1;
    for i := start to end
      invariant blockStart == -1 || start <= blockStart < i
      invariant blockStart >= 0 ==> Metadata.IsMarker(f, lines[blockStart], f.begin)
      invariant forall j :: start <= j < i && j > blockStart ==> !Metadata.IsMarker(f, lines[j], f.begin)
      invariant forall j :: start <= j < i ==> !CommentBlock.EndsBlock(f, lines, start, j)
    {
      if Metadata.IsMarker(f, lines[i], f.begin) {
        blockStart := i;
      } else if Metadata.IsMarker(f, lines[i], f.end) && blockStart >= 0 {
        return blockStart, i + 1, true;
      }
    }
    return 0, 0, false;
  }

  // ---- The bottom-up loop ----

  /** now is the file with the edits of items i and below applied. */
  ghost predicate EditedFrom(lib: Library, before: seq<string>, keyLine: int, items: seq<Item>,
                             tags: map<int, string>, i: int, now: seq<string>)
    requires Laid(before, keyLine, items)
  {
    && 0 <= i <= |items|
    && Ordered(Script(lib, before, keyLine, items, tags, i), |before|)
    && now == BottomUp(before, Script(lib, before, keyLine, items, tags, i), 0)
  }

  /** The topmost item visited after the first n keys. */
  function Reached(keys: seq<int>, total: int, n: nat): int
    requires n <= |keys|
  {
    if n == 0 then total else keys[n - 1]
  }

  lemma KeysBetween(keys: seq<int>, tags: map<int, string>, total: int, n: nat)
    requires n <= |keys|
    requires forall k :: k in tags.Keys <==> k in keys
    requires forall i, j :: 0 <= i < j < |keys| ==> keys[i] > keys[j]
    requires forall i :: i in tags ==> 0 <= i < total
    ensures 0 <= Reached(keys, total, n) <= total || (n == 0 && total < 0)
    ensures n < |keys| ==> keys[n] < Reached(keys, total, n)
    ensures forall j :: (if n < |keys| then keys[n] else -1) < j < Reached(keys, total, n) ==> j !in tags
  {
    forall i | 0 <= i < |keys| ensures 0 <= keys[i] < total {
      assert keys[i] in tags.Keys;
    }
  }

  lemma AboveStays(lib: Library, before: seq<string>, keyLine: int, items: seq<Item>, tags: map<int, string>, i: nat,
                   now: seq<string>)
    requires Laid(before, keyLine, items) && i <= |items|
    requires EditedFrom(lib, before, keyLine, items, tags, i, now)
    ensures Bound(keyLine, items, i) <= |now| && Bound(keyLine, items, i) <= |before|
    ensures forall p :: 0 <= p < Bound(keyLine, items, i) ==> now[p] == before[p]
  {
    var es := Script(lib, before, keyLine, items, tags, i);
    ScriptOrdered(lib, before, keyLine, items, tags, i);
    BoundsRise(before, keyLine, items, i, i);
    forall p | 0 <= p < Bound(keyLine, items, i) ensures now[p] == before[p] {
      if es != [] {
        assert es[0] in es;
      }
      PrefixStays(before, es, 0, p);
    }
  }

  /** Item k of a file already edited below it is where it was. */
  lemma ItemIsThere(lib: Library, before: seq<string>, keyLine: int, items: seq<Item>, tags: map<int, string>, k: int,
                    now: seq<string>)
    requires Laid(before, keyLine, items) && 0 <= k < |items| && k in tags
    requires EditedFrom(lib, before, keyLine, items, tags, k + 1, now)
    ensures Editable(now, items[k]) && Editable(before, items[k])
    ensures items[k].tag.Some? ==> Located(now, items[k].tag.value) && Located(before, items[k].tag.value)
    ensures ItemEdit(lib, now, items[k], tags[k]) == ItemEdit(lib, before, items[k], tags[k])
  {
    var low, high := Bound(keyLine, items, k), Bound(keyLine, items, k + 1);
    assert ItemAt(before, keyLine, items, k);
    EditInStretch(lib, before, keyLine, items, k, tags[k]);
    AboveStays(lib, before, keyLine, items, tags, k + 1, now);
    EditDependsOnStretch(lib, before, now, low, high, items[k], tags[k]);
  }

  lemma EditGoesOn(lib: Library, before: seq<string>, keyLine: int, items: seq<Item>, tags: map<int, string>, k: int,
                   now: seq<string>)
    requires Laid(before, keyLine, items) && 0 <= k < |items| && k in tags
    requires items[k].tag.Some? ==> Located(before, items[k].tag.value)
    requires EditedFrom(lib, before, keyLine, items, tags, k + 1, now)
    ensures var e := ItemEdit(lib, before, items[k], tags[k]);
            Fits(e, |now|) && EditedFrom(lib, before, keyLine, items, tags, k, Apply(now, e))
  {
    var e, es := ItemEdit(lib, before, items[k], tags[k]), Script(lib, before, keyLine, items, tags, k + 1);
    var all := Script(lib, before, keyLine, items, tags, k);
    assert ItemAt(before, keyLine, items, k);
    assert all == [e] + es;
    ScriptOrdered(lib, before, keyLine, items, tags, k);
    BottomUpTail(before, e, es, 0);
    assert BottomUp(before, all, 0) == Apply(BottomUp(before, all, 1), e);
  }

  /** Item k of a file already edited below it can be edited, and that edit leaves the
      file edited from item k on. */
  lemma PrepareEdit(lib: Library, before: seq<string>, keyLine: int, items: seq<Item>, tags: map<int, string>, k: int,
                    below: int, now: seq<string>)
    requires Laid(before, keyLine, items) && 0 <= k < below <= |items| && k in tags
    requires forall j :: k < j < below ==> j !in tags
    requires EditedFrom(lib, before, keyLine, items, tags, below, now)
    ensures Editable(now, items[k])
    ensures items[k].tag.Some? ==> Located(now, items[k].tag.value)
    ensures var e := ItemEdit(lib, now, items[k], tags[k]);
            Fits(e, |now|) && EditedFrom(lib, before, keyLine, items, tags, k, Apply(now, e))
  {
    ScriptSkips(lib, before, keyLine, items, tags, k + 1, below);
    ItemIsThere(lib, before, keyLine, items, tags, k, now);
    EditGoesOn(lib, before, keyLine, items, tags, k, now);
  }

  /** now is the file with the edits of the first n keys applied. */
  ghost predicate EditedBy(lib: Library, before: seq<string>, keyLine: int, items: seq<Item>, tags: map<int, string>,
                           keys: seq<int>, n: int, now: seq<string>) {
    Laid(before, keyLine, items) && 0 <= n <= |keys| && EditedFrom(lib, before, keyLine, items, tags,
                                                                   Reached(keys, |items|, n), now)
  }

  ghost predicate KeysOf(tags: map<int, string>, keys: seq<int>, total: int) {
    && (forall k :: k in tags.Keys <==> k in keys)
    && (forall i, j :: 0 <= i < j < |keys| ==> keys[i] > keys[j])
    && (forall i :: i in tags ==> 0 <= i < total)
  }

  lemma NextEdit(lib: Library, before: seq<string>, keyLine: int, items: seq<Item>, tags: map<int, string>,
                 keys: seq<int>, n: nat, now: seq<string>)
    requires KeysOf(tags, keys, |items|) && n < |keys|
    requires EditedBy(lib, before, keyLine, items, tags, keys, n, now)
    ensures 0 <= keys[n] < |items| && keys[n] in tags && Editable(now, items[keys[n]])
    ensures items[keys[n]].tag.Some? ==> Located(now, items[keys[n]].tag.value)
    ensures var e := ItemEdit(lib, now, items[keys[n]], tags[keys[n]]);
            Fits(e, |now|) && EditedBy(lib, before, keyLine, items, tags, keys, n + 1, Apply(now, e))
  {
    assert keys[n] in tags.Keys;
    KeysBetween(keys, tags, |items|, n);
    PrepareEdit(lib, before, keyLine, items, tags, keys[n], Reached(keys, |items|, n), now);
  }

  lemma AllEdited(lib: Library, before: seq<string>, keyLine: int, items: seq<Item>, tags: map<int, string>,
                  keys: seq<int>, now: seq<string>)
    requires KeysOf(tags, keys, |items|)
    requires EditedBy(lib, before, keyLine, items, tags, keys, |keys|, now)
    ensures now == Retagged(lib, before, keyLine, items, tags)
  {
    KeysBetween(keys, tags, |items|, |keys|);
    ScriptSkips(lib, before, keyLine, items, tags, 0, Reached(keys, |items|, |keys|));
  }
}
