/** Parsed nodes of a kustomization file, where they sit, and what an edit of the
    images block has to produce (internal/infrastructure/manifest/kustomize/document.go). */
module Layout {
  import opened Text
  import opened Scalar
  import opened EditScript

  const NEW_TAG := "newTag"

  type Column = n: int | n >= 1 witness 1

  datatype Kind = ScalarNode | MappingNode | SequenceNode | OtherNode

  /** A YAML node with its 1-based position. Mapping content alternates keys and values. */
  datatype Node = Node(kind: Kind, value: string, line: int, column: Column, style: Style, content: seq<Node>)

  function ShiftNodes(nodes: seq<Node>, delta: int): seq<Node> {
    if nodes == [] then []
    else
      [nodes[0].(line := nodes[0].line + delta, content := ShiftNodes(nodes[0].content, delta))] +
      ShiftNodes(nodes[1..], delta)
  }

  /** Every recorded line number, in document order. */
  function Positions(nodes: seq<Node>): seq<int> {
    if nodes == [] then []
    else [nodes[0].line] + Positions(nodes[0].content) + Positions(nodes[1..])
  }

  lemma {:induction false} ShiftMovesPositions(nodes: seq<Node>, delta: int)
    ensures |Positions(ShiftNodes(nodes, delta))| == |Positions(nodes)|
    ensures forall i :: 0 <= i < |Positions(nodes)| ==>
              Positions(ShiftNodes(nodes, delta))[i] == Positions(nodes)[i] + delta
  {
    if nodes != [] {
      ShiftMovesPositions(nodes[0].content, delta);
      ShiftMovesPositions(nodes[1..], delta);
      var shifted := ShiftNodes(nodes, delta);
      assert shifted[1..] == ShiftNodes(nodes[1..], delta);
    }
  }

  /** Nodes that differ in nothing but their lines, which are delta further down. */
  predicate SameBut(delta: int, a: Node, b: Node)
    decreases a
  {
    && b.kind == a.kind && b.value == a.value && b.column == a.column && b.style == a.style
    && b.line == a.line + delta && |b.content| == |a.content|
    && forall i :: 0 <= i < |a.content| ==> SameBut(delta, a.content[i], b.content[i])
  }

  /** Shifting moves lines and changes nothing else, at any depth. */
  lemma {:induction false} ShiftKeepsTheRest(nodes: seq<Node>, delta: int)
    ensures |ShiftNodes(nodes, delta)| == |nodes|
    ensures forall i :: 0 <= i < |nodes| ==> SameBut(delta, nodes[i], ShiftNodes(nodes, delta)[i])
  {
    if nodes != [] {
      ShiftKeepsTheRest(nodes[0].content, delta);
      ShiftKeepsTheRest(nodes[1..], delta);
      var shifted := ShiftNodes(nodes, delta);
      forall i | 0 <= i < |nodes| ensures SameBut(delta, nodes[i], shifted[i]) {
        assert i > 0 ==> shifted[i] == ShiftNodes(nodes[1..], delta)[i - 1] && nodes[i] == nodes[1..][i - 1];
      }
    }
  }

  lemma {:induction false} ShiftByNothing(nodes: seq<Node>)
    ensures ShiftNodes(nodes, 0) == nodes
  {
    if nodes != [] {
      ShiftByNothing(nodes[0].content);
      ShiftByNothing(nodes[1..]);
      assert nodes == [nodes[0]] + nodes[1..];
    }
  }

  // ---- One item of the images block ----

  /** The value of the first newTag key. */
  function TagNode(content: seq<Node>): Option<Node> {
    if |content| < 2 then None
    else if content[0].value == NEW_TAG then Some(content[1])
    else TagNode(content[2..])
  }

  lemma {:induction false} TagNodeIsChild(content: seq<Node>)
    requires TagNode(content).Some?
    ensures TagNode(content).value in content
  {
    if content[0].value != NEW_TAG {
      TagNodeIsChild(content[2..]);
    }
  }

  /** It is the value behind the first key "newTag", the keys being at the even places. */
  lemma {:induction false} TagNodeIsFirst(content: seq<Node>) returns (k: nat)
    ensures TagNode(content).Some? ==>
              && 2 * k + 1 < |content| && content[2 * k].value == "newTag"
                  && TagNode(content).value == content[2 * k + 1]
              && forall j: nat :: j < k ==> content[2 * j].value != "newTag"
    ensures TagNode(content).None? ==> forall j: nat :: 2 * j + 1 < |content| ==> content[2 * j].value != "newTag"
  {
    k := 0;
    if |content| >= 2 && content[0].value != NEW_TAG {
      k := TagNodeIsFirst(content[2..]);
      assert forall j: nat :: j > 0 && 2 * j < |content| ==> content[2 * j] == content[2..][2 * (j - 1)];
      k := k + 1;
    }
  }

  /** The greatest line among the entries of a mapping. */
  function LastLine(content: seq<Node>): (r: int)
    ensures r >= 0 && forall n :: n in content ==> n.line <= r
    ensures r > 0 ==> exists n :: n in content && n.line == r
  {
    if content == [] then 0
    else
      var rest := LastLine(content[..|content| - 1]);
      var last := content[|content| - 1];
      assert content == content[..|content| - 1] + [last];
      if last.line > rest then last.line else rest
  }

  /** What an edit needs to know of an item of the images block. */
  datatype Item = Item(kind: Kind, column: Column, tag: Option<Node>, last: int)

  function Summary(node: Node): Item {
    Item(node.kind, node.column, TagNode(node.content), LastLine(node.content))
  }

  function Summaries(nodes: seq<Node>): (items: seq<Item>)
    ensures |items| == |nodes| && forall i :: 0 <= i < |nodes| ==> items[i] == Summary(nodes[i])
  {
    seq(|nodes|, i requires 0 <= i < |nodes| => Summary(nodes[i]))
  }

  ghost predicate TokenEndsAt(line: string, node: Node, e: int) {
    Token(line, node.column - 1, e, node.style, node.value)
  }

  /** The node is a single-line scalar that its position locates. */
  ghost predicate Located(lines: seq<string>, node: Node) {
    && node.kind == ScalarNode && 0 < node.line <= |lines|
    && HasToken(lines[node.line - 1], node)
  }

  ghost predicate HasToken(line: string, node: Node) {
    exists e :: TokenEndsAt(line, node, e)
  }

  /** The line of a located scalar with another value in the place of its token. */
  ghost function Rewritten(lib: Library, lines: seq<string>, node: Node, value: string): string
    requires Located(lines, node)
  {
    var line := lines[node.line - 1];
    line[..node.column - 1] + FormatScalar(lib, value) + line[TokenEnd(line, node)..]
  }

  ghost function TokenEnd(line: string, node: Node): (e: int)
    requires HasToken(line, node)
    ensures TokenEndsAt(line, node, e) && node.column - 1 <= e <= |line|
  {
    var e :| TokenEndsAt(line, node, e);
    e
  }

  /** The node is a plain scalar without text, as a value left out is. */
  predicate EmptyAt(lines: seq<string>, node: Node) {
    && node.kind == ScalarNode && node.style == Plain && 0 < node.line <= |lines|
    && node.column - 1 <= |lines[node.line - 1]| && Tail(lines[node.line - 1][node.column - 1..])
  }

  /** The line of an empty scalar with a value put in its place. */
  function FilledIn(lib: Library, lines: seq<string>, node: Node, value: string): string
    requires EmptyAt(lines, node)
  {
    var line := lines[node.line - 1];
    line[..node.column - 1] + FormatScalar(lib, value) + line[node.column - 1..]
  }

  lemma InsertedBetween(before: string, token: string, after: string)
    requires before != "" && token != ""
    ensures var s := before + token + after; s[|before|] == token[0] && s[|before| - 1] == before[|before| - 1]
  {
  }

  lemma FormatHead(lib: Library, value: string)
    requires Sound(lib)
    ensures FormatScalar(lib, value) != "" && !IsBlank(FormatScalar(lib, value)[0])
  {
    FormatEncodes(lib, value);
    StyleOfToken(FormatStyle(lib, value), FormatScalar(lib, value), value);
  }

  /** A value put in the place of an empty one reads back at its column, but directly behind
      the character that was there: it is separated from its key exactly when the empty
      value was. */
  lemma FilledInReads(lib: Library, lines: seq<string>, node: Node, value: string)
    requires Sound(lib) && EmptyAt(lines, node) && node.column > 1
    ensures var out, c := FilledIn(lib, lines, node, value), node.column - 1;
            && Reads(out, c, value) && c < |out| && !IsBlank(out[c])
            && (IsBlank(out[c - 1]) <==> IsBlank(lines[node.line - 1][c - 1]))
  {
    var line, c := lines[node.line - 1], node.column - 1;
    WrittenReads(lib, FilledIn(lib, lines, node, value), line[..c], value, line[c..]);
    StringReads(lib, FilledIn(lib, lines, node, value), c, value);
    FormatHead(lib, value);
    InsertedBetween(line[..c], FormatScalar(lib, value), line[c..]);
  }

  function Entry(lib: Library, item: Item, tag: string): string {
    Spaces(item.column - 1) + NEW_TAG + ": " + FormatScalar(lib, tag)
  }

  /** An item whose entries are single-line scalars on recorded lines in (low, high]. */
  ghost predicate ItemLaid(lines: seq<string>, low: int, high: int, item: Item) {
    && item.kind == MappingNode && 0 <= low < high <= |lines| && item.last == high
    && (item.tag.Some? ==> low < item.tag.value.line <= high && Located(lines, item.tag.value))
  }

  ghost predicate Editable(lines: seq<string>, item: Item) {
    exists low, high :: ItemLaid(lines, low, high, item)
  }

  /** How many lines precede item i's stretch of the file; the images key is above the first. */
  function Bound(keyLine: int, items: seq<Item>, i: nat): int
    requires i <= |items|
  {
    if i == 0 then keyLine else items[i - 1].last
  }

  /** Block style: the items sit on increasing disjoint runs of lines below the images key. */
  ghost predicate Laid(lines: seq<string>, keyLine: int, items: seq<Item>) {
    && 1 <= keyLine <= |lines|
    && forall i :: 0 <= i < |items| ==> ItemAt(lines, keyLine, items, i)
  }

  ghost predicate ItemAt(lines: seq<string>, keyLine: int, items: seq<Item>, i: nat)
    requires i < |items|
  {
    ItemLaid(lines, Bound(keyLine, items, i), Bound(keyLine, items, i + 1), items[i])
  }

  // ---- The edits a change of tags calls for ----

  /** The edit of one item: its newTag value is replaced, or an entry is added below its last line. */
  ghost function ItemEdit(lib: Library, lines: seq<string>, item: Item, tag: string): Edit<string>
    requires item.tag.Some? ==> Located(lines, item.tag.value)
  {
    match item.tag
    case Some(v) => Replace(v.line - 1, Rewritten(lib, lines, v, tag))
    case None => Insert(item.last, Entry(lib, item, tag))
  }

  /** The edits of items i and below, from the top. */
  ghost function Script(lib: Library, lines: seq<string>, keyLine: int, items: seq<Item>, tags: map<int, string>,
                        i: nat): seq<Edit<string>>
    requires Laid(lines, keyLine, items) && i <= |items|
    decreases |items| - i
  {
    if i == |items| then []
    else if i in tags then
      assert ItemAt(lines, keyLine, items, i);
      [ItemEdit(lib, lines, items[i], tags[i])] + Script(lib, lines, keyLine, items, tags, i + 1)
    else Script(lib, lines, keyLine, items, tags, i + 1)
  }

  lemma {:induction false} BoundsRise(lines: seq<string>, keyLine: int, items: seq<Item>, i: nat, j: nat)
    requires Laid(lines, keyLine, items) && i <= j <= |items|
    ensures keyLine <= Bound(keyLine, items, i) <= Bound(keyLine, items, j) <= |lines|
    decreases j
  {
    if i < j {
      BoundsRise(lines, keyLine, items, i, j - 1);
      assert ItemAt(lines, keyLine, items, j - 1);
    } else if 0 < i {
      BoundsRise(lines, keyLine, items, i - 1, i - 1);
      assert ItemAt(lines, keyLine, items, i - 1);
    }
  }

  /** Item i's edit stays within its stretch. */
  lemma EditInStretch(lib: Library, lines: seq<string>, keyLine: int, items: seq<Item>, i: nat, tag: string)
    requires Laid(lines, keyLine, items) && i < |items|
    ensures items[i].tag.Some? ==> Located(lines, items[i].tag.value)
    ensures var e := ItemEdit(lib, lines, items[i], tag);
            && Fits(e, |lines|) && keyLine <= Bound(keyLine, items, i) <= e.at
            && if e.Insert? then e.at == Bound(keyLine, items, i + 1) else e.at < Bound(keyLine, items, i + 1)
  {
    assert ItemAt(lines, keyLine, items, i);
    BoundsRise(lines, keyLine, items, i, i + 1);
  }

  /** The edits of a laid-out images block rise with the items. */
  lemma {:induction false} ScriptOrdered(lib: Library, lines: seq<string>, keyLine: int, items: seq<Item>,
                                         tags: map<int, string>, i: nat)
    requires Laid(lines, keyLine, items) && i <= |items|
    ensures Ordered(Script(lib, lines, keyLine, items, tags, i), |lines|)
    ensures forall e :: e in Script(lib, lines, keyLine, items, tags, i) ==> Bound(keyLine, items, i) <= e.at
    decreases |items| - i
  {
    if i < |items| {
      ScriptOrdered(lib, lines, keyLine, items, tags, i + 1);
      BoundsRise(lines, keyLine, items, i, i + 1);
      if i in tags {
        EditInStretch(lib, lines, keyLine, items, i, tags[i]);
        var rest := Script(lib, lines, keyLine, items, tags, i + 1);
        var e := ItemEdit(lib, lines, items[i], tags[i]);
        forall j | 0 <= j < |rest| ensures Precedes(e, rest[j]) {
          assert rest[j] in rest;
          InsertsStrictly(lib, lines, keyLine, items, tags, i + 1, rest[j]);
        }
      }
    }
  }

  /** Items add lines strictly below where their stretch begins. */
  lemma {:induction false} InsertsStrictly(lib: Library, lines: seq<string>, keyLine: int, items: seq<Item>,
                                           tags: map<int, string>, i: nat, e: Edit<string>)
    requires Laid(lines, keyLine, items) && i <= |items| && e in Script(lib, lines, keyLine, items, tags, i)
    ensures Bound(keyLine, items, i) <= e.at && (e.Insert? ==> Bound(keyLine, items, i) < e.at)
    decreases |items| - i
  {
    assert ItemAt(lines, keyLine, items, i);
    EditInStretch(lib, lines, keyLine, items, i, if i in tags then tags[i] else "");
    if !(i in tags && e == ItemEdit(lib, lines, items[i], tags[i])) {
      InsertsStrictly(lib, lines, keyLine, items, tags, i + 1, e);
    }
  }

  /** Items without a requested tag contribute nothing. */
  lemma {:induction false} ScriptSkips(lib: Library, lines: seq<string>, keyLine: int, items: seq<Item>,
                                       tags: map<int, string>, i: nat, j: nat)
    requires Laid(lines, keyLine, items) && i <= j <= |items|
    requires forall k :: i <= k < j ==> k !in tags
    ensures Script(lib, lines, keyLine, items, tags, i) == Script(lib, lines, keyLine, items, tags, j)
    decreases j - i
  {
    if i < j {
      ScriptSkips(lib, lines, keyLine, items, tags, i + 1, j);
    }
  }

  /** An item is edited alike on any lines that agree down to its last one. */
  lemma EditDependsOnStretch(lib: Library, lines: seq<string>, now: seq<string>, low: int, high: int, item: Item,
                             tag: string)
    requires ItemLaid(lines, low, high, item)
    requires high <= |now| && forall p :: 0 <= p < high ==> now[p] == lines[p]
    ensures ItemLaid(now, low, high, item)
    ensures item.tag.Some? ==> Located(lines, item.tag.value)
    ensures ItemEdit(lib, now, item, tag) == ItemEdit(lib, lines, item, tag)
  {
    if item.tag.Some? {
      var v := item.tag.value;
      assert now[v.line - 1] == lines[v.line - 1];
      assert HasToken(now[v.line - 1], v);
    }
  }

  // ---- What the edits amount to ----

  /** The edited file. */
  ghost function Retagged(lib: Library, lines: seq<string>, keyLine: int, items: seq<Item>,
                          tags: map<int, string>): seq<string>
    requires Laid(lines, keyLine, items)
  {
    ScriptOrdered(lib, lines, keyLine, items, tags, 0);
    BottomUp(lines, Script(lib, lines, keyLine, items, tags, 0), 0)
  }

  /** Where the original 0-based line p is in the edited file. */
  ghost function NewIndex(lib: Library, lines: seq<string>, keyLine: int, items: seq<Item>, tags: map<int, string>,
                          p: int): int
    requires Laid(lines, keyLine, items)
  {
    Moved(Script(lib, lines, keyLine, items, tags, 0), p)
  }

  lemma {:induction false} EditInScript(lib: Library, lines: seq<string>, keyLine: int, items: seq<Item>,
                                        tags: map<int, string>, k: nat, i: nat)
    requires Laid(lines, keyLine, items) && k <= i < |items| && i in tags
    ensures items[i].tag.Some? ==> Located(lines, items[i].tag.value)
    ensures ItemEdit(lib, lines, items[i], tags[i]) in Script(lib, lines, keyLine, items, tags, k)
    decreases i - k
  {
    assert ItemAt(lines, keyLine, items, i);
    var es := Script(lib, lines, keyLine, items, tags, k);
    if k == i {
      assert es[0] == ItemEdit(lib, lines, items[i], tags[i]);
    } else {
      EditInScript(lib, lines, keyLine, items, tags, k + 1, i);
      var rest := Script(lib, lines, keyLine, items, tags, k + 1);
      assert es == rest || es == [es[0]] + rest;
    }
  }

  lemma {:induction false} ScriptOnlyEdits(lib: Library, lines: seq<string>, keyLine: int, items: seq<Item>,
                                           tags: map<int, string>, k: nat, e: Edit<string>)
    returns (i: nat)
    requires Laid(lines, keyLine, items) && k <= |items| && e in Script(lib, lines, keyLine, items, tags, k)
    ensures k <= i < |items| && i in tags
    ensures items[i].tag.Some? ==> Located(lines, items[i].tag.value)
    ensures e == ItemEdit(lib, lines, items[i], tags[i])
    decreases |items| - k
  {
    assert ItemAt(lines, keyLine, items, k);
    if k in tags && e == ItemEdit(lib, lines, items[k], tags[k]) {
      i := k;
    } else {
      i := ScriptOnlyEdits(lib, lines, keyLine, items, tags, k + 1, e);
    }
  }

  /** How many of the items from i on gain a line. */
  function Gained(items: seq<Item>, tags: map<int, string>, i: nat): nat
    requires i <= |items|
    decreases |items| - i
  {
    if i == |items| then 0
    else (if i in tags && items[i].tag.None? then 1 else 0) + Gained(items, tags, i + 1)
  }

  lemma {:induction false} PrependInsertions(e: Edit<string>, es: seq<Edit<string>>, k: nat)
    requires k <= |es|
    ensures Insertions([e] + es, k + 1) == Insertions(es, k)
    decreases |es| - k
  {
    if k < |es| {
      PrependInsertions(e, es, k + 1);
    }
  }

  lemma InsertionsBehind(e: Edit<string>, es: seq<Edit<string>>)
    ensures Insertions([e] + es, 0) == (if e.Insert? then 1 else 0) + Insertions(es, 0)
  {
    PrependInsertions(e, es, 0);
  }

  /** Item i's edit, if it has one, is in front of the others. */
  lemma ScriptStep(lib: Library, lines: seq<string>, keyLine: int, items: seq<Item>, tags: map<int, string>, i: nat)
    requires Laid(lines, keyLine, items) && i < |items|
    ensures items[i].tag.Some? ==> Located(lines, items[i].tag.value)
    ensures var rest := Script(lib, lines, keyLine, items, tags, i + 1);
            Script(lib, lines, keyLine, items, tags, i) ==
            if i in tags then [ItemEdit(lib, lines, items[i], tags[i])] + rest else rest
  {
    assert ItemAt(lines, keyLine, items, i);
  }

  lemma {:induction false} ScriptInsertions(lib: Library, lines: seq<string>, keyLine: int, items: seq<Item>,
                                            tags: map<int, string>, i: nat)
    requires Laid(lines, keyLine, items) && i <= |items|
    ensures Insertions(Script(lib, lines, keyLine, items, tags, i), 0) == Gained(items, tags, i)
    decreases |items| - i
  {
    if i < |items| {
      ScriptInsertions(lib, lines, keyLine, items, tags, i + 1);
      ScriptStep(lib, lines, keyLine, items, tags, i);
      if i in tags {
        InsertionsBehind(ItemEdit(lib, lines, items[i], tags[i]), Script(lib, lines, keyLine, items, tags, i + 1));
      }
    }
  }

  /** The file grows by exactly the items that had no newTag. */
  lemma RetaggedLength(lib: Library, lines: seq<string>, keyLine: int, items: seq<Item>, tags: map<int, string>)
    requires Laid(lines, keyLine, items)
    ensures |Retagged(lib, lines, keyLine, items, tags)| == |lines| + Gained(items, tags, 0)
  {
    ScriptOrdered(lib, lines, keyLine, items, tags, 0);
    ScriptInsertions(lib, lines, keyLine, items, tags, 0);
  }

  /** Line p holds the tag value of an item whose tag is to change. */
  ghost predicate HoldsChangedTag(items: seq<Item>, tags: map<int, string>, p: int) {
    exists i :: 0 <= i < |items| && i in tags && items[i].tag.Some? && p == items[i].tag.value.line - 1
  }

  /** Every other original line survives unchanged, and all original lines keep their order. */
  lemma OtherLinesSurvive(lib: Library, lines: seq<string>, keyLine: int, items: seq<Item>, tags: map<int, string>,
                          p: int)
    requires Laid(lines, keyLine, items) && 0 <= p < |lines|
    ensures var out, at := Retagged(lib, lines, keyLine, items, tags), NewIndex(lib, lines, keyLine, items, tags, p);
            && 0 <= at < |out|
            && (!HoldsChangedTag(items, tags, p) ==> out[at] == lines[p])
            && forall q :: q < p ==> NewIndex(lib, lines, keyLine, items, tags, q) < at
  {
    var es := Script(lib, lines, keyLine, items, tags, 0);
    ScriptOrdered(lib, lines, keyLine, items, tags, 0);
    OriginalLine(lines, es, 0, p);
    forall q | q < p ensures Moved(es, q) < Moved(es, p) {
      MovedKeepsOrder(es, q, p);
    }
    if !HoldsChangedTag(items, tags, p) {
      forall j | 0 <= j < |es| && es[j].Replace? ensures es[j].at != p {
        var i := ScriptOnlyEdits(lib, lines, keyLine, items, tags, 0, es[j]);
      }
    }
  }

  lemma OnlyOwnEdit(lib: Library, lines: seq<string>, keyLine: int, items: seq<Item>, tags: map<int, string>, i: nat,
                    k: nat)
    requires Laid(lines, keyLine, items) && i < |items| && k < |items| && i != k
    requires items[i].tag.Some? && items[k].tag.Some?
    ensures items[i].tag.value.line != items[k].tag.value.line
  {
    EditInStretch(lib, lines, keyLine, items, i, "");
    EditInStretch(lib, lines, keyLine, items, k, "");
    if k < i {
      BoundsRise(lines, keyLine, items, k + 1, i);
    } else {
      BoundsRise(lines, keyLine, items, i + 1, k);
    }
  }

  lemma LocatedReads(lines: seq<string>, v: Node)
    requires Located(lines, v)
    ensures Reads(lines[v.line - 1], v.column - 1, v.value)
  {
    var line := lines[v.line - 1];
    var e :| TokenEndsAt(line, v, e);
    assert Carries(line, v.column - 1, v.style, v.value);
  }

  /** Item i's newTag value, where one was requested, is swapped for it in place: the
      text around the value is as before and the line reads as the requested tag. */
  lemma ChangedTagReadsBack(lib: Library, lines: seq<string>, keyLine: int, items: seq<Item>, tags: map<int, string>,
                            i: nat)
    requires Sound(lib) && Laid(lines, keyLine, items)
    requires i < |items| && i in tags && items[i].tag.Some? && Located(lines, items[i].tag.value)
    ensures var v := items[i].tag.value;
            var out, at := Retagged(lib, lines, keyLine, items, tags),
                NewIndex(lib, lines, keyLine, items, tags, v.line - 1);
            && 0 <= at < |out| && ReadsString(lib, out[at], v.column - 1, tags[i])
            && SwappedAt(lib, lines[v.line - 1], v, tags[i], out[at])
  {
    ChangedTagLine(lib, lines, keyLine, items, tags, i);
    RewrittenReads(lib, lines, items[i].tag.value, tags[i]);
    RewrittenSwaps(lib, lines, items[i].tag.value, tags[i]);
  }

  /** The line with the written form of the tag in the place of the node's token. */
  ghost predicate SwappedAt(lib: Library, line: string, v: Node, tag: string, out: string) {
    forall e :: TokenEndsAt(line, v, e) ==>
      v.column - 1 <= e <= |line| && out == line[..v.column - 1] + FormatScalar(lib, tag) + line[e..]
  }

  lemma RewrittenSwaps(lib: Library, lines: seq<string>, v: Node, tag: string)
    requires Located(lines, v)
    ensures SwappedAt(lib, lines[v.line - 1], v, tag, Rewritten(lib, lines, v, tag))
  {
    var line := lines[v.line - 1];
    var end := TokenEnd(line, v);
    forall e | TokenEndsAt(line, v, e) ensures e == end {
      TokensAgree(line, v.column - 1, e, v.style, v.value, end, v.style, v.value);
    }
  }

  lemma TagUntouched(lib: Library, lines: seq<string>, keyLine: int, items: seq<Item>, tags: map<int, string>, i: nat)
    requires Laid(lines, keyLine, items) && i < |items| && i !in tags && items[i].tag.Some?
    ensures !HoldsChangedTag(items, tags, items[i].tag.value.line - 1)
  {
    if HoldsChangedTag(items, tags, items[i].tag.value.line - 1) {
      var k :| 0 <= k < |items| && k in tags && items[k].tag.Some?
          && items[i].tag.value.line - 1 == items[k].tag.value.line - 1;
      OnlyOwnEdit(lib, lines, keyLine, items, tags, i, k);
    }
  }

  /** Item i's newTag line, where none was requested, is untouched and reads as before. */
  lemma OtherTagReadsBack(lib: Library, lines: seq<string>, keyLine: int, items: seq<Item>, tags: map<int, string>,
                          i: nat)
    requires Laid(lines, keyLine, items)
    requires i < |items| && i !in tags && items[i].tag.Some? && Located(lines, items[i].tag.value)
    ensures var v := items[i].tag.value;
            var out, at := Retagged(lib, lines, keyLine, items, tags),
                NewIndex(lib, lines, keyLine, items, tags, v.line - 1);
            0 <= at < |out| && out[at] == lines[v.line - 1] && Reads(out[at], v.column - 1, v.value)
  {
    TagUntouched(lib, lines, keyLine, items, tags, i);
    OtherLinesSurvive(lib, lines, keyLine, items, tags, items[i].tag.value.line - 1);
    LocatedReads(lines, items[i].tag.value);
  }

  lemma ChangedTagLine(lib: Library, lines: seq<string>, keyLine: int, items: seq<Item>, tags: map<int, string>, i: nat)
    requires Laid(lines, keyLine, items)
    requires i < |items| && i in tags && items[i].tag.Some? && Located(lines, items[i].tag.value)
    ensures var v := items[i].tag.value;
            var out, at := Retagged(lib, lines, keyLine, items, tags),
                NewIndex(lib, lines, keyLine, items, tags, v.line - 1);
            0 <= at < |out| && out[at] == Rewritten(lib, lines, v, tags[i])
  {
    var es := Script(lib, lines, keyLine, items, tags, 0);
    ScriptOrdered(lib, lines, keyLine, items, tags, 0);
    EditInScript(lib, lines, keyLine, items, tags, 0, i);
    EditTakesEffect(lines, es, ItemEdit(lib, lines, items[i], tags[i]));
  }

  lemma RewrittenReads(lib: Library, lines: seq<string>, v: Node, tag: string)
    requires Sound(lib) && Located(lines, v)
    ensures ReadsString(lib, Rewritten(lib, lines, v, tag), v.column - 1, tag)
  {
    var line := lines[v.line - 1];
    var e := TokenEnd(line, v);
    WrittenReads(lib, Rewritten(lib, lines, v, tag), line[..v.column - 1], tag, line[e..]);
  }

  /** The line is a newTag entry of an item at the column, and nothing else: spaces up to
      the column, the key, and the written form of the tag. */
  predicate IsTagEntry(lib: Library, line: string, column: int, tag: string) {
    && 1 <= column && column + 7 <= |line|
    && (forall j :: 0 <= j < column - 1 ==> line[j] == ' ')
    && line[column - 1..column + 7] == "newTag: "
    && line[column + 7..] == FormatScalar(lib, tag)
  }

  lemma EntryIsTagEntry(lib: Library, item: Item, tag: string)
    ensures IsTagEntry(lib, Entry(lib, item, tag), item.column, tag)
  {
    var margin, key, token := Spaces(item.column - 1), NEW_TAG + ": ", FormatScalar(lib, tag);
    var line := Entry(lib, item, tag);
    assert line == margin + key + token && |margin| == item.column - 1 && key == "newTag: ";
    assert line[|margin|..|margin| + |key|] == key && line[|margin| + |key|..] == token;
  }

  /** An item that had no newTag gains one line, right below its last entry: a newTag entry
      in the item's column that reads as the tag. */
  lemma NewEntryReadsBack(lib: Library, lines: seq<string>, keyLine: int, items: seq<Item>, tags: map<int, string>,
                          i: nat)
    requires Sound(lib) && Laid(lines, keyLine, items)
    requires i < |items| && i in tags && items[i].tag.None?
    ensures var out := Retagged(lib, lines, keyLine, items, tags);
            var at := NewIndex(lib, lines, keyLine, items, tags, items[i].last - 1) + 1;
            && 0 <= at < |out| && IsTagEntry(lib, out[at], items[i].column, tags[i])
            && ReadsString(lib, out[at], items[i].column + 7, tags[i])
  {
    NewEntryLine(lib, lines, keyLine, items, tags, i);
    EntryReads(lib, items[i], tags[i]);
    EntryIsTagEntry(lib, items[i], tags[i]);
  }

  lemma NewEntryLine(lib: Library, lines: seq<string>, keyLine: int, items: seq<Item>, tags: map<int, string>, i: nat)
    requires Laid(lines, keyLine, items)
    requires i < |items| && i in tags && items[i].tag.None?
    ensures var out := Retagged(lib, lines, keyLine, items, tags);
            var at := NewIndex(lib, lines, keyLine, items, tags, items[i].last - 1) + 1;
            0 <= at < |out| && out[at] == Entry(lib, items[i], tags[i])
  {
    var es, e := Script(lib, lines, keyLine, items, tags, 0), Insert(items[i].last, Entry(lib, items[i], tags[i]));
    ScriptOrdered(lib, lines, keyLine, items, tags, 0);
    EditInScript(lib, lines, keyLine, items, tags, 0, i);
    EditTakesEffect(lines, es, e);
  }

  lemma EntryReads(lib: Library, item: Item, tag: string)
    requires Sound(lib)
    ensures ReadsString(lib, Entry(lib, item, tag), item.column + 7, tag)
  {
    var before := Spaces(item.column - 1) + NEW_TAG + ": ";
    assert Entry(lib, item, tag) == before + FormatScalar(lib, tag) + "";
    WrittenReads(lib, Entry(lib, item, tag), before, tag, "");
  }

  /** Item i has a newTag entry once the tags are set. */
  predicate HasEntry(items: seq<Item>, tags: map<int, string>, i: nat)
    requires i < |items|
  {
    items[i].tag.Some? || i in tags
  }

  /** Where that entry then is: the line of the old entry, or the line below the item's last one. */
  ghost function TagLine(lib: Library, lines: seq<string>, keyLine: int, items: seq<Item>, tags: map<int, string>,
                         i: nat): int
    requires Laid(lines, keyLine, items) && i < |items|
  {
    if items[i].tag.Some? then NewIndex(lib, lines, keyLine, items, tags, items[i].tag.value.line - 1)
    else NewIndex(lib, lines, keyLine, items, tags, items[i].last - 1) + 1
  }

  function TagColumn(item: Item): int {
    if item.tag.Some? then item.tag.value.column - 1 else item.column + 7
  }

  lemma EntryBelowKey(lib: Library, lines: seq<string>, keyLine: int, items: seq<Item>, tags: map<int, string>, i: nat)
    requires Laid(lines, keyLine, items) && i < |items|
    ensures items[i].tag.Some? ==> Located(lines, items[i].tag.value)
    ensures keyLine - 1 <= TagLine(lib, lines, keyLine, items, tags, i)
  {
    EditInStretch(lib, lines, keyLine, items, i, "");
    BoundsRise(lines, keyLine, items, i, i + 1);
  }

  /** How item i's line came about: an entry of its own, the old line with the tag swapped,
      or the old line. */
  ghost predicate EntryLine(lib: Library, lines: seq<string>, items: seq<Item>, tags: map<int, string>, i: nat,
                            out: string)
    requires i < |items| && HasEntry(items, tags, i)
    requires items[i].tag.Some? ==> Located(lines, items[i].tag.value)
  {
    if items[i].tag.None? then
      IsTagEntry(lib, out, items[i].column, tags[i]) && ReadsString(lib, out, TagColumn(items[i]), tags[i])
    else
      var v := items[i].tag.value;
      if i in tags then
        SwappedAt(lib, lines[v.line - 1], v, tags[i], out) && ReadsString(lib, out, TagColumn(items[i]), tags[i])
      else out == lines[v.line - 1] && Reads(out, TagColumn(items[i]), v.value)
  }

  lemma EntryLineReads(lib: Library, lines: seq<string>, items: seq<Item>, tags: map<int, string>, i: nat, out: string)
    requires i < |items| && HasEntry(items, tags, i)
    requires items[i].tag.Some? ==> Located(lines, items[i].tag.value)
    requires EntryLine(lib, lines, items, tags, i, out)
    ensures Reads(out, TagColumn(items[i]), if i in tags then tags[i] else items[i].tag.value.value)
  {
    if i in tags {
      StringReads(lib, out, TagColumn(items[i]), tags[i]);
    }
  }

  /** Once the tags are set, item i's entry is below the images key and reads as the
      requested tag or, where none was requested, as before. */
  lemma EntryReadsBack(lib: Library, lines: seq<string>, keyLine: int, items: seq<Item>, tags: map<int, string>, i: nat)
    requires Sound(lib) && Laid(lines, keyLine, items) && i < |items| && HasEntry(items, tags, i)
    ensures var out, at := Retagged(lib, lines, keyLine, items, tags), TagLine(lib, lines, keyLine, items, tags, i);
            && keyLine - 1 <= at < |out|
            && (items[i].tag.Some? ==> Located(lines, items[i].tag.value))
            && EntryLine(lib, lines, items, tags, i, out[at])
            && Reads(out[at], TagColumn(items[i]), if i in tags then tags[i] else items[i].tag.value.value)
  {
    EntryBelowKey(lib, lines, keyLine, items, tags, i);
    if items[i].tag.None? {
      NewEntryReadsBack(lib, lines, keyLine, items, tags, i);
    } else if i in tags {
      ChangedTagReadsBack(lib, lines, keyLine, items, tags, i);
    } else {
      OtherTagReadsBack(lib, lines, keyLine, items, tags, i);
    }
    var at := TagLine(lib, lines, keyLine, items, tags, i);
    EntryLineReads(lib, lines, items, tags, i, Retagged(lib, lines, keyLine, items, tags)[at]);
  }

  /** The lines down to the images key neither move nor change. */
  lemma HeadStays(lib: Library, lines: seq<string>, keyLine: int, items: seq<Item>, tags: map<int, string>, p: int)
    requires Laid(lines, keyLine, items) && 0 <= p < keyLine
    ensures var out := Retagged(lib, lines, keyLine, items, tags); p < |out| && out[p] == lines[p]
  {
    var es := Script(lib, lines, keyLine, items, tags, 0);
    ScriptOrdered(lib, lines, keyLine, items, tags, 0);
    if es != [] {
      assert es[0] in es;
    }
    PrefixStays(lines, es, 0, p);
  }
}
