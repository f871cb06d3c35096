/** The file texts behind a delivery: the manifest directories of a base tree, as the
    patcher and the resolver of internal/infrastructure/manifest/kustomize/patcher.go answer
    for them, under the runs of Redelivery. */
module Overlays {
  import opened Text
  import opened Errors
  import opened Planning
  import opened Delivery
  import opened Redelivery
  import opened ImageTags
  import Directories
  import Layout
  import LineFile
  import Metadata
  import CommentBlock
  import Kustomization
  import Patching
  import Scalar
  import Sorting
  import WholeLines

  /** A kustomization.yaml as parsing leaves it. */
  datatype Overlay = Overlay(state: CommentBlock.State, images: seq<Image>, trailingNewline: bool)

  /** The checkout of the base branch, and the parsed file of every manifest directory. */
  datatype Tree = Tree(root: Directories.Entry, overlays: map<string, Overlay>)

  /** What an event asks of every manifest, and the libraries it is written with. */
  datatype Push = Push(image: string, newTag: string, manifest: Metadata.Manifest, indent: int,
                       lib: Scalar.Library, format: Metadata.Format)

  /** The lines are those of a text; the images block is in block style and was decoded
      from its nodes. */
  ghost predicate Readable(o: Overlay) {
    && 1 <= o.state.keyLine <= |o.state.lines| && WholeLines.Readable(o.state.lines, o.trailingNewline)
    && Patching.LaidOut(o.state) && Patching.Decoded(o.images, Layout.Summaries(o.state.nodes))
  }

  ghost predicate ReadableTree(tree: Tree) { forall d :: d in tree.overlays ==> Readable(tree.overlays[d]) }

  function UpdatedImages(p: Push, o: Overlay): (r: seq<Image>)
    ensures Retagging(o.images, p.image, p.newTag, r)
  {
    seq(|o.images|, i requires 0 <= i < |o.images| => Retagged(o.images[i], p.image, p.newTag))
  }

  ghost function TagsSet(p: Push, o: Overlay): map<int, string> { Patching.Differences(o.images, UpdatedImages(p, o)) }

  function ManifestOf(p: Push, writes: bool): Option<Metadata.Manifest> { if writes then Some(p.manifest) else None }

  function FileOf(o: Overlay, t: CommentBlock.State): LineFile.File { LineFile.File(t.lines, o.trailingNewline) }

  /** The markers can be told apart, and each fits on a line. */
  predicate Marked(p: Push) { WholeLines.WholeMarkers(p.format) && Metadata.DistinctMarkers(p.format) }

  // ---- What the patcher answers ----

  /** The file of the overlay is managed and text is what patching it wrote. */
  ghost predicate PatchedTo(p: Push, o: Overlay, writes: bool, text: string) {
    && Managed(o.images, p.image, p.newTag)
    && exists t, w :: text == LineFile.Written(FileOf(o, t)) &&
                      Patching.Rewrote(p.lib, p.format, o.state, TagsSet(p, o), ManifestOf(p, writes), p.indent, t, w)
  }

  /** The file is managed and carries the tag already. */
  ghost predicate CarriesTag(p: Push, o: Overlay) {
    Managed(o.images, p.image, p.newTag) && UpdatedImages(p, o) == o.images
  }

  /** Patch between reading and writing the file: the text it writes, or why it writes none. */
  method PatchOverlay(p: Push, o: Overlay, writes: bool) returns (r: Result<string, Patching.PatchError>)
    requires Readable(o) && Metadata.DistinctMarkers(p.format)
    ensures r.Ok? ==> PatchedTo(p, o, writes, r.value)
    ensures r == Err(Patching.ImageNotManaged) <==> !Managed(o.images, p.image, p.newTag)
    ensures r == Err(Patching.NoDifference) <==> CarriesTag(p, o)
    ensures r != Err(Patching.InvalidManifest)
  {
    var doc := new Kustomization.Document(p.lib, p.format, o.state.lines, o.state.keyLine, o.state.indent,
                                          o.state.nodes);
    assert doc.State() == o.state;
    assert Patching.HaveNodes(TagsSet(p, o), |o.state.nodes|);
    var failed;
    ghost var updated, w;
    failed, updated, w := Patching.Patch(doc, o.images, p.image, p.newTag, ManifestOf(p, writes), p.indent);
    if Managed(o.images, p.image, p.newTag) {
      RetaggedOnce(p, o, updated);
    }
    assert failed == Some(Patching.NoDifference) <==> CarriesTag(p, o);
    if failed.Some? {
      return Err(failed.value);
    }
    r := Ok(LineFile.Written(LineFile.File(doc.lines, o.trailingNewline)));
    assert r.value == LineFile.Written(FileOf(o, doc.State()));
  }

  lemma RetaggedOnce(p: Push, o: Overlay, updated: seq<Image>)
    requires Retagging(o.images, p.image, p.newTag, updated)
    ensures updated == UpdatedImages(p, o)
  {
  }

  /** Entry i carries its updated tag in t, on a line that was changed in nothing else. */
  ghost predicate EntryAsPushed(p: Push, o: Overlay, t: CommentBlock.State, i: nat)
    requires Patching.LaidOut(o.state) && |o.state.nodes| == |o.images| && i < |o.images|
  {
    && Patching.TagNow(p.lib, o.state, TagsSet(p, o), t, i, UpdatedImages(p, o)[i].newTag)
    && Patching.EntryNow(p.lib, o.state, TagsSet(p, o), t, i)
  }

  /** The images key and all above it are as they were. */
  ghost predicate HeadKept(o: Overlay, t: CommentBlock.State) {
    && t.keyLine == o.state.keyLine <= |t.lines| && t.keyLine <= |o.state.lines|
    && forall q :: 0 <= q < t.keyLine ==> t.lines[q] == o.state.lines[q]
  }

  /** The first block above the images key is the YAML of a document with the manifest in it. */
  ghost predicate HoldsManifest(p: Push, t: CommentBlock.State) {
    exists start, from, to, content :: IsBlockOf(p, t, start, from, to, content) && p.manifest in content.images
  }

  ghost predicate IsBlockOf(p: Push, t: CommentBlock.State, start: int, from: int, to: int, content: Metadata.Content) {
    && CommentBlock.HeadComments(t.lines, start, t.keyLine - 1)
    && CommentBlock.FirstBlock(p.format, t.lines, start, t.keyLine - 1, from, to)
    && content.schemaVersion == "v1" && content.generator == "image-updater"
    && Metadata.EncodedText(p.format, content, p.indent).Some?
    && Join(Metadata.BodyOf(p.format, t.lines[from..to]), "\n") ==
       Metadata.TrimNewlines(Metadata.EncodedText(p.format, content, p.indent).value)
  }

  /** The updated document cannot be rendered. */
  ghost predicate Unrenderable(p: Push, o: Overlay) {
    Patching.LaidOut(o.state) &&
    exists w :: CommentBlock.Located(p.format, Patching.WithTags(p.lib, o.state, TagsSet(p, o)), p.manifest, w) &&
                !Patching.Renders(p.format, w, p.indent)
  }

  /** The metadata block holds the manifest if it is to be written and can be rendered;
      otherwise nothing above the images block has changed. */
  ghost predicate BlockAsPushed(p: Push, o: Overlay, writes: bool, t: CommentBlock.State) {
    if writes then HoldsManifest(p, t) || (Unrenderable(p, o) && HeadKept(o, t)) else HeadKept(o, t)
  }

  /** The text, taken apart into lines again, carries the tag in every entry that takes it,
      the old value in every other one, and the manifest if it is to be written. */
  ghost predicate ReadsAsPushed(p: Push, o: Overlay, writes: bool, text: string) {
    && Patching.LaidOut(o.state) && |o.state.nodes| == |o.images|
    && exists t :: LineFile.Read(text) == FileOf(o, t) && BlockAsPushed(p, o, writes, t) &&
                   forall i :: 0 <= i < |o.images| ==> EntryAsPushed(p, o, t, i)
  }

  lemma PatchedReadsAsPushed(p: Push, o: Overlay, writes: bool, text: string)
    requires Scalar.Sound(p.lib) && Marked(p)
    requires Readable(o) && PatchedTo(p, o, writes, text)
    ensures ReadsAsPushed(p, o, writes, text)
  {
    var manifest := ManifestOf(p, writes);
    var t, w :| text == LineFile.Written(FileOf(o, t)) &&
                Patching.Rewrote(p.lib, p.format, o.state, TagsSet(p, o), manifest, p.indent, t, w);
    WholeLines.PatchReadsBackWhole(p.lib, p.format, o.state, TagsSet(p, o), manifest, p.indent, t, w,
                                   o.trailingNewline);
    forall i | 0 <= i < |o.images| ensures EntryAsPushed(p, o, t, i) {
      Patching.PatchReadsBack(p.lib, p.format, o.state, o.images, UpdatedImages(p, o), manifest, p.indent, t, w, i);
    }
    BlockIsAsPushed(p, o, writes, t, w);
  }

  lemma BlockIsAsPushed(p: Push, o: Overlay, writes: bool, t: CommentBlock.State, w: CommentBlock.Splice)
    requires Metadata.DistinctMarkers(p.format)
    requires Patching.Rewrote(p.lib, p.format, o.state, TagsSet(p, o), ManifestOf(p, writes), p.indent, t, w)
    ensures BlockAsPushed(p, o, writes, t)
  {
    var mid := Patching.WithTags(p.lib, o.state, TagsSet(p, o));
    if writes && Patching.Renders(p.format, w, p.indent) {
      UpsertHoldsManifest(p, mid, t, w);
    } else {
      TagsKeepHead(p, o);
    }
  }

  lemma TagsKeepHead(p: Push, o: Overlay)
    requires Patching.LaidOut(o.state)
    ensures HeadKept(o, Patching.WithTags(p.lib, o.state, TagsSet(p, o)))
  {
    var items := Layout.Summaries(o.state.nodes);
    Layout.RetaggedLength(p.lib, o.state.lines, o.state.keyLine, items, TagsSet(p, o));
    forall q | 0 <= q < o.state.keyLine
      ensures Layout.Retagged(p.lib, o.state.lines, o.state.keyLine, items, TagsSet(p, o))[q] == o.state.lines[q]
    {
      Layout.HeadStays(p.lib, o.state.lines, o.state.keyLine, items, TagsSet(p, o), q);
    }
  }

  lemma UpsertHoldsManifest(p: Push, s: CommentBlock.State, t: CommentBlock.State, w: CommentBlock.Splice)
    requires Metadata.DistinctMarkers(p.format)
    requires CommentBlock.Upserted(p.format, s, p.manifest, p.indent, t, w)
    ensures HoldsManifest(p, t)
  {
    CommentBlock.BlockFoundAgain(p.format, s, p.manifest, p.indent, t, w);
    Metadata.UpsertHolds(w.before, p.manifest, w.after);
    assert IsBlockOf(p, t, w.start, w.from, CommentBlock.BlockEnd(w), CommentBlock.Updated(w.after));
  }

  // ---- What the resolver answers ----

  /** What Directories.Resolve gives for the path when it succeeds. */
  ghost predicate PathResolvesTo(root: Directories.Entry, path: string, dirs: seq<string>) {
    var segments := Directories.SplitManifestPath(path);
    var w := Directories.FirstWildcard(segments);
    && Directories.PathCheck(root, Directories.FixedPart(path)).None?
    && if w == |segments| then dirs == [path] else dirs != [] && Directories.Resolved(root, segments, w, dirs)
  }

  lemma ResolvesOnce(root: Directories.Entry, path: string, a: seq<string>, b: seq<string>)
    requires PathResolvesTo(root, path, a) && PathResolvesTo(root, path, b)
    ensures a == b
  {
    var segments := Directories.SplitManifestPath(path);
    if Directories.FirstWildcard(segments) < |segments| {
      forall s ensures s in a <==> s in b {
      }
      Sorting.IncreasingBySet(a, b);
    }
  }

  method ResolvePath(tree: Tree, path: string) returns (r: Result<seq<string>, Error>)
    requires tree.root.Dir? && Directories.Proper(tree.root)
    ensures r.Ok? ==> PathResolvesTo(tree.root, path, r.value)
  {
    r := Directories.Resolve(tree.root, path);
  }

  ghost function Resolution(tree: Tree, path: string): Result<seq<string>, Error> {
    if dirs :| PathResolvesTo(tree.root, path, dirs) then Ok(dirs) else Err({})
  }

  // ---- The tree is the base of the runs ----

  /** Calls that succeed on the checkout answer as PatchOverlay and ResolvePath do on the
      tree; calls may fail for any other reason. */
  ghost predicate AnswersFrom(tree: Tree, p: Push, s: Script) {
    && (forall path :: s.resolve(path).Ok? ==> PathResolvesTo(tree.root, path, s.resolve(path).value))
    && (forall d, w :: s.patch(d, w).Ok? ==>
          d in tree.overlays && PatchedTo(p, tree.overlays[d], w, s.patch(d, w).value))
    && (forall d, w :: s.patch(d, w).Err? && NoDifference in s.patch(d, w).error ==>
          d in tree.overlays && CarriesTag(p, tree.overlays[d]))
  }

  ghost function BaseOf(tree: Tree, p: Push): Base {
    Base(path => Resolution(tree, path),
         (d, w, text) => d in tree.overlays && ReadsAsPushed(p, tree.overlays[d], w, text),
         (d, w) => d in tree.overlays && CarriesTag(p, tree.overlays[d]))
  }

  lemma AnswersAreFaithful(tree: Tree, p: Push, s: Script)
    requires Scalar.Sound(p.lib) && Marked(p) && ReadableTree(tree) && AnswersFrom(tree, p, s)
    ensures Faithful(BaseOf(tree, p), s)
  {
    var base := BaseOf(tree, p);
    forall path | s.resolve(path).Ok? ensures s.resolve(path) == base.resolve(path) {
      ResolvesOnce(tree.root, path, s.resolve(path).value, Resolution(tree, path).value);
    }
    forall d, w | s.patch(d, w).Ok? ensures base.accepts(d, w, s.patch(d, w).value) {
      PatchedReadsAsPushed(p, tree.overlays[d], w, s.patch(d, w).value);
    }
  }

  ghost predicate AllAnswerFrom(tree: Tree, p: Push, hs: seq<Happening>) {
    forall i :: 0 <= i < |hs| && hs[i].Attempt? ==> AnswersFrom(tree, p, hs[i].script)
  }

  /** In every directory any of the targets resolves to in the tree, the commit has a text
      that reads as pushed, or it leaves a file that carries the tag already. */
  ghost predicate TreeUpdated(tree: Tree, p: Push, targets: seq<Target>, files: map<string, string>) {
    forall i, dirs :: 0 <= i < |targets| && PathResolvesTo(tree.root, targets[i].location.dir, dirs) ==>
      forall d :: d in dirs ==> DirectoryUpdated(tree, p, d, targets[i].writesImageManifest, files)
  }

  ghost predicate DirectoryUpdated(tree: Tree, p: Push, d: string, writes: bool, files: map<string, string>) {
    && d in tree.overlays
    && if d in files then ReadsAsPushed(p, tree.overlays[d], writes, files[d]) else CarriesTag(p, tree.overlays[d])
  }

  /** No update is lost in the files either: after any run of attempts at one base tree,
      however they failed, one without failures is acknowledged with a pull request open,
      and every manifest on its branch reads as the pushed tag. */
  lemma NoTagIsLost(tree: Tree, p: Push, remote: Remote, task: Task, hs: seq<Happening>, s: Script,
                    manifests: seq<Target>)
    requires Scalar.Sound(p.lib) && Marked(p) && ReadableTree(tree)
    requires task.branch !in remote.branches && remote.open[task.branch] == 0
    requires AllowedRun(remote, task, hs) && AllAnswerFrom(tree, p, hs)
    requires AnswersFrom(tree, p, s) && FailureFree(task, s)
    requires Selected(Run(remote, task, hs), task, s, manifests)
    ensures var (end, r) := Step(Run(remote, task, hs), task, s, manifests);
            && Acknowledged(r) && HasOpen(end, task)
            && (end.open[task.branch] > 0 ==>
                  task.branch in end.branches && TreeUpdated(tree, p, task.targets, end.branches[task.branch].files))
  {
    var base := BaseOf(tree, p);
    forall i | 0 <= i < |hs| && hs[i].Attempt? ensures Faithful(base, hs[i].script) {
      AnswersAreFaithful(tree, p, hs[i].script);
    }
    AnswersAreFaithful(tree, p, s);
    NoUpdateIsLost(base, remote, task, hs, s, manifests);
    var end := Step(Run(remote, task, hs), task, s, manifests).0;
    if end.open[task.branch] > 0 {
      CompleteInFiles(tree, p, task.targets, end.branches[task.branch].files);
    }
  }

  lemma CompleteInFiles(tree: Tree, p: Push, targets: seq<Target>, files: map<string, string>)
    requires CompleteUpdate(BaseOf(tree, p), targets, files)
    ensures TreeUpdated(tree, p, targets, files)
  {
    forall i, dirs | 0 <= i < |targets| && PathResolvesTo(tree.root, targets[i].location.dir, dirs)
      ensures forall d :: d in dirs ==> DirectoryUpdated(tree, p, d, targets[i].writesImageManifest, files)
    {
      ResolvesOnce(tree.root, targets[i].location.dir, dirs, Resolution(tree, targets[i].location.dir).value);
      forall d | d in dirs ensures DirectoryUpdated(tree, p, d, targets[i].writesImageManifest, files) {
        assert ResolvesTo(BaseOf(tree, p).resolve, targets[i], d);
        assert UpToDate(BaseOf(tree, p), d, targets[i].writesImageManifest, files);
      }
    }
  }
}
