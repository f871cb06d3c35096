/** Patching one kustomization file: the part of
    internal/infrastructure/manifest/kustomize/patcher.go between reading and writing it. */
module Patching {
  import opened Text
  import opened ImageTags
  import Scalar
  import Layout
  import Metadata
  import CommentBlock
  import Kustomization

  datatype PatchError = ImageNotManaged | NoDifference | InvalidManifest

  ghost function Differences(original: seq<Image>, updated: seq<Image>): map<int, string> {
    map i | 0 <= i < |original| && i < |updated| && original[i].newTag != updated[i].newTag :: updated[i].newTag
  }

  /** The document right after the tags were set, before the metadata block is touched. */
  ghost function WithTags(lib: Scalar.Library, s: CommentBlock.State, tags: map<int, string>): CommentBlock.State
    requires Layout.Laid(s.lines, s.keyLine, Layout.Summaries(s.nodes))
  {
    s.(lines := Layout.Retagged(lib, s.lines, s.keyLine, Layout.Summaries(s.nodes), tags))
  }

  /** What a patch that rewrote the file did: the tags, then, if there is a manifest and its
      block can be rendered, one upsert above them. */
  ghost predicate Rewrote(lib: Scalar.Library, f: Metadata.Format, s: CommentBlock.State, tags: map<int, string>,
                          manifest: Option<Metadata.Manifest>, indent: int, t: CommentBlock.State,
                          w: CommentBlock.Splice) {
    && LaidOut(s)
    && var mid := WithTags(lib, s, tags);
       if manifest.None? then t == mid
       else
         && CommentBlock.Located(f, mid, manifest.value, w)
         && if Renders(f, w, indent) then CommentBlock.Upserted(f, mid, manifest.value, indent, t, w) else t == mid
  }

  predicate Renders(f: Metadata.Format, w: CommentBlock.Splice, indent: int) {
    var body := Metadata.EncodedBody(f, CommentBlock.Updated(w.after), indent);
    body.Some? && Metadata.Guarded(f, body.value)
  }

  /** Which entries of the images block change, and to what. */
  method SelectChanges(images: seq<Image>, image: string, newTag: string)
    returns (r: Result<map<int, string>, PatchError>, ghost updated: seq<Image>)
    ensures r == Err(ImageNotManaged) <==> !Managed(images, image, newTag)
    ensures Managed(images, image, newTag) ==> Retagging(images, image, newTag, updated)
    ensures r == Err(NoDifference) <==> Managed(images, image, newTag) && updated == images
    ensures r == Err(NoDifference) ==> Differences(images, updated) == map[]
    ensures r.Err? ==> r.error.ImageNotManaged? || r.error.NoDifference?
    ensures r.Ok? ==> r.value == Differences(images, updated) && r.value != map[]
  {
    updated := images;
    var replaced := ReplaceTag(images, image, newTag);
    if replaced.None? {
      return Err(ImageNotManaged), updated;
    }
    updated := replaced.value;
    var changed := ChangedNewTags(images, replaced.value);
    assert changed == Differences(images, updated);
    if |changed| == 0 {
      forall i | 0 <= i < |images| ensures updated[i] == images[i] {
        assert i !in changed;
      }
      return Err(NoDifference), updated;
    }
    return Ok(changed), updated;
  }

  ghost predicate LaidOut(s: CommentBlock.State) {
    Layout.Laid(s.lines, s.keyLine, Layout.Summaries(s.nodes))
  }

  /** The decoded images and the nodes of the images block are read off separately;
      an entry that changes must have a node to be edited. */
  predicate HaveNodes(tags: map<int, string>, nodes: nat) { forall i :: i in tags ==> 0 <= i < nodes }

  /** A failure to render the metadata block does not hold back the tags. */
  method Patch(doc: Kustomization.Document, images: seq<Image>, image: string, newTag: string,
               manifest: Option<Metadata.Manifest>, indent: int)
    returns (r: Option<PatchError>, ghost updated: seq<Image>, ghost w: CommentBlock.Splice)
    requires 1 <= doc.imagesKeyLine <= |doc.lines| && Metadata.DistinctMarkers(doc.format)
    modifies doc
    ensures r == Some(ImageNotManaged) <==> !Managed(images, image, newTag)
    ensures Managed(images, image, newTag) ==> Retagging(images, image, newTag, updated)
    ensures r == Some(NoDifference) <==> Managed(images, image, newTag) && updated == images
    ensures r == Some(ImageNotManaged) || r == Some(NoDifference) ==> doc.State() == old(doc.State())
    ensures old(LaidOut(doc.State())) ==>
              (r == Some(InvalidManifest) <==>
               Managed(images, image, newTag) && !HaveNodes(Differences(images, updated), old(|doc.imageNodes|)))
    ensures r == None && old(LaidOut(doc.State())) ==>
              Rewrote(doc.lib, doc.format, old(doc.State()), Differences(images, updated), manifest, indent,
                      doc.State(), w)
  {
    w := CommentBlock.Splice(0, 0, 0, [], [], []);
    var changed;
    changed, updated := SelectChanges(images, image, newTag);
    if changed.Err? {
      assert changed == Err(NoDifference) ==> HaveNodes(Differences(images, updated), |doc.imageNodes|);
      return Some(changed.error), updated, w;
    }
    var ok;
    ok, w := Rewrite(doc, changed.value, manifest, indent);
    return if ok then None else Some(InvalidManifest), updated, w;
  }

  /** Edits the document: it fails exactly when an entry to change has no node. */
  method Rewrite(doc: Kustomization.Document, tags: map<int, string>, manifest: Option<Metadata.Manifest>, indent: int)
    returns (ok: bool, ghost w: CommentBlock.Splice)
    requires 1 <= doc.imagesKeyLine <= |doc.lines| && Metadata.DistinctMarkers(doc.format)
    modifies doc
    ensures old(LaidOut(doc.State())) ==>
              && (ok <==> HaveNodes(tags, old(|doc.imageNodes|)))
              && (ok ==> Rewrote(doc.lib, doc.format, old(doc.State()), tags, manifest, indent, doc.State(), w))
  {
    w := CommentBlock.Splice(0, 0, 0, [], [], []);
    var outcome := doc.SetNewTags(tags);
    if outcome.Failed? {
      return false, w;
    }
    assert old(LaidOut(doc.State())) ==> doc.State() == WithTags(doc.lib, old(doc.State()), tags);
    if manifest.Some? {
      var upserted;
      upserted, w := doc.UpsertImageManifest(manifest.value, indent);
      assert upserted <==> Renders(doc.format, w, indent);
    }
    return true, w;
  }

  // ---- Reading the patched file again ----

  /** images is what the YAML library decodes the items into. */
  ghost predicate Decoded(images: seq<Image>, items: seq<Layout.Item>) {
    && |images| == |items|
    && forall i :: 0 <= i < |items| ==> images[i].newTag == if items[i].tag.Some? then items[i].tag.value.value else ""
  }

  /** The tag of item i, read from the lines of the patched file, is value. */
  ghost predicate TagNow(lib: Scalar.Library, s: CommentBlock.State, tags: map<int, string>, t: CommentBlock.State,
                         i: nat, value: string)
    requires LaidOut(s) && i < |s.nodes|
  {
    var items := Layout.Summaries(s.nodes);
    if Layout.HasEntry(items, tags, i) then
      var at := Layout.TagLine(lib, s.lines, s.keyLine, items, tags, i) + (t.keyLine - s.keyLine);
      0 <= at < |t.lines| && Scalar.Reads(t.lines[at], Layout.TagColumn(items[i]), value)
    else value == ""
  }

  /** What stands on the line of item i's entry in the patched file, if it has one: an entry
      of its own in the item's column, the old line with the tag swapped, or the old line. */
  ghost predicate EntryNow(lib: Scalar.Library, s: CommentBlock.State, tags: map<int, string>, t: CommentBlock.State,
                           i: nat)
    requires LaidOut(s) && i < |s.nodes|
  {
    var items := Layout.Summaries(s.nodes);
    Layout.HasEntry(items, tags, i) ==>
      var at := Layout.TagLine(lib, s.lines, s.keyLine, items, tags, i) + (t.keyLine - s.keyLine);
      && 0 <= at < |t.lines| && (items[i].tag.Some? ==> Layout.Located(s.lines, items[i].tag.value))
      && Layout.EntryLine(lib, s.lines, items, tags, i, t.lines[at])
  }

  /** From the images key on, t has the lines of s, further down by the same amount. */
  ghost predicate KeptBelow(s: CommentBlock.State, t: CommentBlock.State) {
    forall p :: 0 <= p < |s.lines| && s.keyLine - 1 <= p ==>
      0 <= p + (t.keyLine - s.keyLine) < |t.lines| && t.lines[p + (t.keyLine - s.keyLine)] == s.lines[p]
  }

  lemma UpsertedKeepsBelow(f: Metadata.Format, s: CommentBlock.State, m: Metadata.Manifest, indent: int,
                           t: CommentBlock.State, w: CommentBlock.Splice)
    requires CommentBlock.Upserted(f, s, m, indent, t, w)
    ensures KeptBelow(s, t)
  {
    assert t.keyLine - s.keyLine == CommentBlock.Delta(w) && w.to <= s.keyLine - 1;
    forall p | 0 <= p < |s.lines| && s.keyLine - 1 <= p
      ensures 0 <= p + (t.keyLine - s.keyLine) < |t.lines| && t.lines[p + (t.keyLine - s.keyLine)] == s.lines[p]
    {
      CommentBlock.LinesKept(f, s, m, indent, t, w, p);
    }
  }

  lemma UpsertKeepsBelow(lib: Scalar.Library, f: Metadata.Format, s: CommentBlock.State, tags: map<int, string>,
                         manifest: Option<Metadata.Manifest>, indent: int, t: CommentBlock.State,
                         w: CommentBlock.Splice)
    requires Rewrote(lib, f, s, tags, manifest, indent, t, w)
    ensures KeptBelow(WithTags(lib, s, tags), t)
  {
    var mid := WithTags(lib, s, tags);
    if t != mid {
      UpsertedKeepsBelow(f, mid, manifest.value, indent, t, w);
    }
  }

  /** Re-reading the patched file gives every item its new tag, block upsert or not. */
  lemma PatchReadsBack(lib: Scalar.Library, f: Metadata.Format, s: CommentBlock.State, images: seq<Image>,
                       updated: seq<Image>,
                       manifest: Option<Metadata.Manifest>, indent: int, t: CommentBlock.State,
                       w: CommentBlock.Splice, i: nat)
    requires Scalar.Sound(lib) && |updated| == |images| && Decoded(images, Layout.Summaries(s.nodes)) && i < |images|
    requires Rewrote(lib, f, s, Differences(images, updated), manifest, indent, t, w)
    ensures TagNow(lib, s, Differences(images, updated), t, i, updated[i].newTag)
    ensures EntryNow(lib, s, Differences(images, updated), t, i)
  {
    UpsertKeepsBelow(lib, f, s, Differences(images, updated), manifest, indent, t, w);
    TagsReadBack(lib, s, Differences(images, updated), t, i);
  }

  lemma TagsReadBack(lib: Scalar.Library, s: CommentBlock.State, tags: map<int, string>, t: CommentBlock.State, i: nat)
    requires Scalar.Sound(lib) && i < |s.nodes| && LaidOut(s) && KeptBelow(WithTags(lib, s, tags), t)
    ensures var tag := Layout.Summaries(s.nodes)[i].tag;
            TagNow(lib, s, tags, t, i, if i in tags then tags[i] else if tag.Some? then tag.value.value else "")
    ensures EntryNow(lib, s, tags, t, i)
  {
    var items := Layout.Summaries(s.nodes);
    if Layout.HasEntry(items, tags, i) {
      var at := Layout.TagLine(lib, s.lines, s.keyLine, items, tags, i);
      Layout.EntryReadsBack(lib, s.lines, s.keyLine, items, tags, i);
      assert WithTags(lib, s, tags).lines[at] == t.lines[at + (t.keyLine - s.keyLine)];
    }
  }

  lemma TagNowIsUnique(lib: Scalar.Library, s: CommentBlock.State, tags: map<int, string>, t: CommentBlock.State,
                       i: nat, v: string, u: string)
    requires LaidOut(s) && i < |s.nodes|
    requires TagNow(lib, s, tags, t, i, v) && TagNow(lib, s, tags, t, i, u)
    ensures v == u
  {
    var items := Layout.Summaries(s.nodes);
    if Layout.HasEntry(items, tags, i) {
      var at := Layout.TagLine(lib, s.lines, s.keyLine, items, tags, i) + (t.keyLine - s.keyLine);
      Scalar.ReadsOneValue(t.lines[at], Layout.TagColumn(items[i]), v, u);
    }
  }

  lemma RereadTag(lib: Scalar.Library, f: Metadata.Format, s: CommentBlock.State, images: seq<Image>,
                  updated: seq<Image>,
                  manifest: Option<Metadata.Manifest>, indent: int, t: CommentBlock.State, w: CommentBlock.Splice,
                  i: nat, value: string)
    requires Scalar.Sound(lib) && |updated| == |images| && Decoded(images, Layout.Summaries(s.nodes)) && i < |images|
    requires Rewrote(lib, f, s, Differences(images, updated), manifest, indent, t, w)
    requires TagNow(lib, s, Differences(images, updated), t, i, value)
    ensures value == updated[i].newTag
  {
    PatchReadsBack(lib, f, s, images, updated, manifest, indent, t, w, i);
    TagNowIsUnique(lib, s, Differences(images, updated), t, i, value, updated[i].newTag);
  }

  /** The same event delivered again to the patched file makes no difference, whoever
      re-reads it: any list of the same names whose tags are read off the patched lines
      is still managed and already carries the tag. */
  lemma SecondPatchMakesNoDifference(lib: Scalar.Library, f: Metadata.Format, s: CommentBlock.State,
                                     images: seq<Image>, updated: seq<Image>,
                                     image: string, newTag: string, manifest: Option<Metadata.Manifest>, indent: int,
                                     t: CommentBlock.State, w: CommentBlock.Splice, reread: seq<Image>,
                                     again: seq<Image>)
    requires Scalar.Sound(lib) && Decoded(images, Layout.Summaries(s.nodes))
    requires Managed(images, image, newTag) && Retagging(images, image, newTag, updated)
    requires Rewrote(lib, f, s, Differences(images, updated), manifest, indent, t, w)
    requires |reread| == |images| && forall i :: 0 <= i < |images| ==>
               reread[i].name == images[i].name && TagNow(lib, s, Differences(images, updated), t, i, reread[i].newTag)
    requires Retagging(reread, image, newTag, again)
    ensures Managed(reread, image, newTag) && again == reread
  {
    forall i | 0 <= i < |images| ensures reread[i].newTag == updated[i].newTag {
      RereadTag(lib, f, s, images, updated, manifest, indent, t, w, i, reread[i].newTag);
    }
    RereadStays(images, image, newTag, updated, reread, again);
  }
}
