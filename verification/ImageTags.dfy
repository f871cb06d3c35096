/** Retagging the entries of an images block: internal/infrastructure/manifest/kustomize/patcher.go. */
module ImageTags {
  import opened Text

  /** An entry of the images block; other stands for the fields the patcher never looks at. */
  datatype Image = Image(name: string, newTag: string, other: string)

  const SEPARATOR := '.'

  function IndexOf(s: string, c: char): (k: nat)
    ensures k <= |s| && Free(s[..k], c) && (k < |s| ==> s[k] == c)
  {
    if s == "" || s[0] == c then 0 else 1 + IndexOf(s[1..], c)
  }

  /** The part of s before the first c, all of s when there is none. */
  function Before(s: string, c: char): string { s[..IndexOf(s, c)] }

  predicate Contains(s: string, c: char) { IndexOf(s, c) < |s| }

  function TagIdentifier(tag: string): string { Before(tag, SEPARATOR) }

  predicate HasIdentifier(tag: string) { Contains(tag, SEPARATOR) }

  predicate IsRegistryHost(segment: string) {
    Contains(segment, '.') || Contains(segment, ':') || segment == "localhost"
  }

  /** An image name without its registry host, tag and digest. */
  function RepositoryPath(image: string): string {
    var segments := Split(Before(image, '@'), '/');
    WithoutTag(if |segments| > 1 && IsRegistryHost(segments[0]) then segments[1..] else segments)
  }

  function WithoutTag(path: seq<string>): string
    requires path != []
  {
    var last := |path| - 1;
    Join(WithLast(path, Before(path[last], ':')), "/")
  }

  /** path with another last part. */
  function WithLast(path: seq<string>, part: string): seq<string>
    requires path != []
  {
    path[..|path| - 1] + [part]
  }

  // ---- Mirrors of one repository are the same repository ----

  lemma {:induction false} IndexOfBehind(a: string, c: char, b: string)
    requires Free(a, c)
    ensures IndexOf(a + [c] + b, c) == |a|
  {
    var s := a + [c] + b;
    if a != "" {
      assert s[1..] == a[1..] + [c] + b && Free(a[1..], c);
      IndexOfBehind(a[1..], c, b);
    }
  }

  lemma {:induction false} IndexOfAbsent(a: string, c: char)
    requires Free(a, c)
    ensures IndexOf(a, c) == |a|
  {
    if a != "" {
      assert Free(a[1..], c);
      IndexOfAbsent(a[1..], c);
    }
  }

  /** parts with b put behind its last part. */
  function LastExtended(parts: seq<string>, b: string): seq<string>
    requires parts != []
  {
    WithLast(parts, parts[|parts| - 1] + b)
  }

  lemma ExtendedBehind(part: string, parts: seq<string>, b: string)
    requires parts != []
    ensures LastExtended([part] + parts, b) == [part] + LastExtended(parts, b)
  {
    assert ([part] + parts)[..|parts|] == [part] + parts[..|parts| - 1];
  }

  /** The segments of a string that starts with c and has these segments behind it. */
  function Started(c: char, rest: seq<string>): seq<string>
    requires rest != []
  {
    if c == '/' then [""] + rest else [[c] + rest[0]] + rest[1..]
  }

  lemma StartedExtended(c: char, rest: seq<string>, b: string)
    requires rest != []
    ensures LastExtended(Started(c, rest), b) == Started(c, LastExtended(rest, b))
  {
    if c == '/' {
      ExtendedBehind("", rest, b);
    } else if |rest| == 1 {
      assert [c] + (rest[0] + b) == ([c] + rest[0]) + b;
    } else {
      ExtendedBehind([c] + rest[0], rest[1..], b);
      ExtendedBehind(rest[0], rest[1..], b);
      assert [rest[0]] + rest[1..] == rest;
    }
  }

  lemma {:induction false} SplitLastSegment(a: string, b: string)
    requires Free(b, '/')
    ensures Split(a + b, '/') == LastExtended(Split(a, '/'), b)
  {
    if a == "" {
      assert a + b == b;
      SplitFree(b, '/');
    } else {
      assert (a + b)[1..] == a[1..] + b && (a + b)[0] == a[0];
      SplitLastSegment(a[1..], b);
      StartedExtended(a[0], Split(a[1..], '/'), b);
    }
  }

  lemma {:induction false} SplitPartsFree(s: string, sep: char, c: char)
    requires Free(s, c)
    ensures forall i :: 0 <= i < |Split(s, sep)| ==> Free(Split(s, sep)[i], c)
  {
    if s != "" {
      assert Free(s[1..], c);
      SplitPartsFree(s[1..], sep, c);
      var rest := Split(s[1..], sep);
      assert Free([s[0]] + rest[0], c);
    }
  }

  /** The path of an image does not depend on the registry it is mirrored in, nor on the tag or
      digest it is pinned to. */
  lemma RepositoryPathOfMirror(host: string, path: string, tag: string, digest: string)
    requires IsRegistryHost(host) && Free(host, '/') && Free(host, '@')
    requires Free(path, '@') && Free(path, ':') && Free(tag, '/') && Free(tag, '@')
    ensures RepositoryPath(host + "/" + path + ":" + tag + "@" + digest) == path
    ensures RepositoryPath(host + "/" + path) == path
  {
    MirrorPath(host, path, ":" + tag);
    var name := host + "/" + path + (":" + tag);
    assert Free(name, '@');
    IndexOfBehind(name, '@', digest);
    assert host + "/" + path + ":" + tag + "@" + digest == name + ['@'] + digest;
    assert (name + ['@'] + digest)[..|name|] == name;
    MirrorPath(host, path, "");
    assert host + "/" + path + "" == host + "/" + path;
    IndexOfAbsent(host + "/" + path, '@');
  }

  /** Cutting the suffix off the last segment gives the path back. */
  lemma SuffixCut(path: string, suffix: string)
    requires Free(path, ':') && Free(suffix, '/') && (suffix == "" || suffix[0] == ':')
    ensures WithoutTag(Split(path + suffix, '/')) == path
  {
    var parts := Split(path, '/');
    SplitLastSegment(path, suffix);
    SplitPartsFree(path, '/', ':');
    ExtensionCut(parts, suffix);
    JoinSplit(path, '/');
  }

  lemma ExtensionCut(parts: seq<string>, suffix: string)
    requires parts != [] && Free(parts[|parts| - 1], ':') && (suffix == "" || suffix[0] == ':')
    ensures WithoutTag(LastExtended(parts, suffix)) == Join(parts, "/")
  {
    CutAtColon(parts[|parts| - 1], suffix);
    CutExtension(parts, suffix);
  }

  lemma CutExtension(parts: seq<string>, suffix: string)
    requires parts != []
    ensures WithLast(LastExtended(parts, suffix), parts[|parts| - 1]) == parts
  {
    assert LastExtended(parts, suffix)[..|parts| - 1] == parts[..|parts| - 1];
  }

  lemma PathOfSegments(name: string, segments: seq<string>)
    requires Free(name, '@') && segments == Split(name, '/')
    requires |segments| > 1 ==> !IsRegistryHost(segments[0])
    ensures RepositoryPath(name) == WithoutTag(segments)
  {
    IndexOfAbsent(name, '@');
    assert name[..|name|] == name;
  }

  /** The first segment of a name names no registry. */
  predicate NoHost(path: string) {
    var first := Split(path, '/')[0];
    Free(first, '.') && Free(first, ':') && first != "localhost"
  }

  lemma ExtendedHead(parts: seq<string>, suffix: string)
    requires |parts| > 1
    ensures LastExtended(parts, suffix)[0] == parts[0] && |LastExtended(parts, suffix)| == |parts|
  {
  }

  lemma NameWithoutHost(path: string, suffix: string)
    requires Free(path, '@') && Free(path, ':') && Free(suffix, '/') && Free(suffix, '@')
    requires (suffix == "" || suffix[0] == ':') && NoHost(path)
    ensures RepositoryPath(path + suffix) == path
  {
    var parts := Split(path, '/');
    SplitLastSegment(path, suffix);
    RegistryExactly(parts[0]);
    if |parts| > 1 {
      ExtendedHead(parts, suffix);
    } else {
      assert |LastExtended(parts, suffix)| == 1;
    }
    PathOfSegments(path + suffix, LastExtended(parts, suffix));
    SuffixCut(path, suffix);
  }

  /** Without a registry in front the path is all of the name but its tag. */
  lemma RepositoryPathOfPlainName(path: string, tag: string)
    requires Free(path, '@') && Free(path, ':') && Free(tag, '/') && Free(tag, '@') && NoHost(path)
    ensures RepositoryPath(path) == path
    ensures RepositoryPath(path + ":" + tag) == path
  {
    NameWithoutHost(path, "");
    assert path + "" == path;
    NameWithoutHost(path, ":" + tag);
    assert path + (":" + tag) == path + ":" + tag;
  }

  /** A first segment with a dot or a port, or "localhost", names a registry. */
  lemma RegistryExactly(segment: string)
    ensures IsRegistryHost(segment) <==> !Free(segment, '.') || !Free(segment, ':') || segment == "localhost"
  {
    forall c | c == '.' || c == ':' ensures Contains(segment, c) <==> !Free(segment, c) {
      assert segment[..|segment|] == segment;
      if Free(segment, c) {
        IndexOfAbsent(segment, c);
      }
    }
  }

  lemma CutAtColon(segment: string, suffix: string)
    requires Free(segment, ':') && (suffix == "" || suffix[0] == ':')
    ensures Before(segment + suffix, ':') == segment
  {
    if suffix == "" {
      assert segment + suffix == segment;
      IndexOfAbsent(segment, ':');
    } else {
      assert segment + suffix == segment + [':'] + suffix[1..];
      IndexOfBehind(segment, ':', suffix[1..]);
    }
  }

  lemma MirrorPath(host: string, path: string, suffix: string)
    requires IsRegistryHost(host) && Free(host, '/') && Free(path, ':') && Free(suffix, '/')
    requires suffix == "" || suffix[0] == ':'
    ensures var segments := Split(host + "/" + path + suffix, '/');
            |segments| > 1 && segments[0] == host && WithoutTag(segments[1..]) == path
  {
    assert host + "/" + path + suffix == host + ['/'] + (path + suffix);
    SplitPrefix(host, path + suffix, '/');
    SuffixCut(path, suffix);
    var rest := Split(path + suffix, '/');
    assert ([host] + rest)[1..] == rest;
  }

  // ---- Which entries a push concerns ----

  predicate RefersTo(entry: Image, image: string) { RepositoryPath(entry.name) == RepositoryPath(image) }

  /** A dotted tag takes over the entries with its own identifier, a plain tag the plain entries. */
  predicate Takes(entry: Image, image: string, newTag: string) {
    && RefersTo(entry, image)
    && if HasIdentifier(newTag) then TagIdentifier(entry.newTag) == TagIdentifier(newTag)
       else !HasIdentifier(entry.newTag)
  }

  /** The push concerns the entry, whether or not it changes it. */
  predicate Manages(entry: Image, image: string, newTag: string) {
    RefersTo(entry, image) && (HasIdentifier(newTag) ==> TagIdentifier(entry.newTag) == TagIdentifier(newTag))
  }

  ghost predicate Managed(images: seq<Image>, image: string, newTag: string) {
    exists i :: 0 <= i < |images| && Manages(images[i], image, newTag)
  }

  function Retagged(entry: Image, image: string, newTag: string): Image {
    if Takes(entry, image, newTag) then entry.(newTag := newTag) else entry
  }

  /** updated is images with newTag on exactly the entries that take it. */
  ghost predicate Retagging(images: seq<Image>, image: string, newTag: string, updated: seq<Image>) {
    && |updated| == |images|
    && forall i :: 0 <= i < |images| ==> updated[i] == Retagged(images[i], image, newTag)
  }

  /** One entry of the image's repository: its new self, and whether the push concerns it. */
  method RetagEntry(entry: Image, image: string, newTag: string) returns (r: Image, found: bool)
    requires RefersTo(entry, image)
    ensures r == Retagged(entry, image, newTag) && found == Manages(entry, image, newTag)
  {
    r, found := entry, true;
    if HasIdentifier(newTag) {
      if TagIdentifier(entry.newTag) == TagIdentifier(newTag) {
        r := entry.(newTag := newTag);
      } else {
        found := false;
      }
    } else if entry.newTag == newTag {
      // Already there: the image is managed, nothing to change.
    } else if !HasIdentifier(entry.newTag) {
      r := entry.(newTag := newTag);
    }
  }

  lemma OneMore(images: seq<Image>, i: nat, image: string, newTag: string, updated: seq<Image>)
    requires i < |images| && Retagging(images[..i], image, newTag, updated)
    ensures Retagging(images[..i + 1], image, newTag, updated + [Retagged(images[i], image, newTag)])
    ensures Managed(images[..i + 1], image, newTag) <==>
              Managed(images[..i], image, newTag) || Manages(images[i], image, newTag)
  {
    var front, all := images[..i], images[..i + 1];
    assert all == front + [images[i]];
    if Managed(front, image, newTag) {
      var j :| 0 <= j < i && Manages(front[j], image, newTag);
      assert Manages(all[j], image, newTag);
    }
    assert Manages(all[i], image, newTag) <==> Manages(images[i], image, newTag);
  }

  /** None is ErrImageNotManaged. */
  method ReplaceTag(images: seq<Image>, image: string, newTag: string) returns (r: Option<seq<Image>>)
    ensures r.Some? <==> Managed(images, image, newTag)
    ensures r.Some? ==> Retagging(images, image, newTag, r.value)
  {
    var target := RepositoryPath(image);
    var found := false;
    var updated := [];
    for i := 0 to |images|
      invariant found <==> Managed(images[..i], image, newTag)
      invariant Retagging(images[..i], image, newTag, updated)
    {
      OneMore(images, i, image, newTag, updated);
      var entry := images[i];
      if RepositoryPath(entry.name) != target {
        updated := updated + [entry];
        continue;
      }
      var now, concerned := RetagEntry(entry, image, newTag);
      found := found || concerned;
      updated := updated + [now];
    }
    assert images[..|images|] == images;
    r := if found then Some(updated) else None;
  }

  /** The indexes whose tag differs, with their new tags. */
  method ChangedNewTags(original: seq<Image>, updated: seq<Image>) returns (changed: map<int, string>)
    ensures forall i :: i in changed <==>
              0 <= i < |original| && i < |updated| && original[i].newTag != updated[i].newTag
    ensures forall i :: i in changed ==> changed[i] == updated[i].newTag
  {
    changed := map[];
    for i := 0 to |updated|
      invariant forall j :: j in changed <==> 0 <= j < i && j < |original| && original[j].newTag != updated[j].newTag
      invariant forall j :: j in changed ==> changed[j] == updated[j].newTag
    {
      if i >= |original| {
        break;
      }
      if original[i].newTag != updated[i].newTag {
        changed := changed[i := updated[i].newTag];
      }
    }
  }

  // ---- What a push does, tag by tag ----

  /** A tag is its identifier, a dot and the rest; a tag without a dot is its own identifier. */
  lemma IdentifierOf(id: string, rest: string)
    requires Free(id, '.')
    ensures TagIdentifier(id + "." + rest) == id && HasIdentifier(id + "." + rest)
    ensures TagIdentifier(id) == id && !HasIdentifier(id)
  {
    IndexOfBehind(id, '.', rest);
    assert (id + "." + rest)[..|id|] == id;
    IndexOfAbsent(id, '.');
  }

  /** Entries of other paths are left alone. */
  lemma OtherPathsStay(images: seq<Image>, image: string, newTag: string, updated: seq<Image>, i: nat)
    requires Retagging(images, image, newTag, updated) && i < |images|
    requires RepositoryPath(images[i].name) != RepositoryPath(image)
    ensures updated[i] == images[i]
  {
  }

  /** A push of "id.s" replaces, on its path, the tags "id" and "id.r" for any r, and leaves
      every tag with another identifier, dotted or not. */
  lemma DottedPush(images: seq<Image>, image: string, id: string, s: string, updated: seq<Image>, i: nat)
    requires Retagging(images, image, id + "." + s, updated) && i < |images| && Free(id, '.')
    requires RepositoryPath(images[i].name) == RepositoryPath(image)
    ensures forall r: string :: images[i].newTag == id + "." + r ==> updated[i].newTag == id + "." + s
    ensures images[i].newTag == id ==> updated[i].newTag == id + "." + s
    ensures forall other, r: string :: Free(other, '.') && other != id && images[i].newTag == other + "." + r ==>
              updated[i] == images[i]
    ensures Free(images[i].newTag, '.') && images[i].newTag != id ==> updated[i] == images[i]
  {
    IdentifierOf(id, s);
    forall r: string | images[i].newTag == id + "." + r ensures updated[i].newTag == id + "." + s {
      IdentifierOf(id, r);
    }
    forall other, r: string | Free(other, '.') && other != id && images[i].newTag == other + "." + r
      ensures updated[i] == images[i]
    {
      IdentifierOf(other, r);
    }
    if Free(images[i].newTag, '.') {
      IdentifierOf(images[i].newTag, "");
    }
  }

  /** A push of a tag without a dot replaces, on its path, exactly the tags without a dot. */
  lemma PlainPush(images: seq<Image>, image: string, newTag: string, updated: seq<Image>, i: nat)
    requires Retagging(images, image, newTag, updated) && i < |images| && Free(newTag, '.')
    requires RepositoryPath(images[i].name) == RepositoryPath(image)
    ensures updated[i] == if Free(images[i].newTag, '.') then images[i].(newTag := newTag) else images[i]
  {
    IdentifierOf(newTag, "");
    if Free(images[i].newTag, '.') {
      IdentifierOf(images[i].newTag, "");
    } else {
      Dotted(images[i].newTag);
    }
  }

  lemma Dotted(tag: string)
    requires !Free(tag, '.')
    ensures HasIdentifier(tag)
  {
    assert tag[..|tag|] == tag;
  }

  /** A push is not managed exactly when no entry is on its path or, for "id.s", none of
      them has the tag "id" or a tag that starts with "id.". */
  lemma NotManagedExactly(images: seq<Image>, image: string, id: string, s: string)
    requires Free(id, '.')
    ensures Managed(images, image, id) <==>
            exists i :: 0 <= i < |images| && RepositoryPath(images[i].name) == RepositoryPath(image)
    ensures Managed(images, image, id + "." + s) <==>
            exists i :: 0 <= i < |images| && RepositoryPath(images[i].name) == RepositoryPath(image) &&
                        (images[i].newTag == id || id + "." <= images[i].newTag)
  {
    IdentifierOf(id, s);
    forall i | 0 <= i < |images|
      ensures TagIdentifier(images[i].newTag) == id <==> images[i].newTag == id || id + "." <= images[i].newTag
    {
      IdentifiedExactly(images[i].newTag, id);
    }
    if i :| 0 <= i < |images| && Manages(images[i], image, id) {
      assert RepositoryPath(images[i].name) == RepositoryPath(image);
    }
    if i :| 0 <= i < |images| && RepositoryPath(images[i].name) == RepositoryPath(image) {
      assert Manages(images[i], image, id);
    }
    if i :| 0 <= i < |images| && Manages(images[i], image, id + "." + s) {
      assert images[i].newTag == id || id + "." <= images[i].newTag;
    }
    if i :| 0 <= i < |images| && RepositoryPath(images[i].name) == RepositoryPath(image) &&
            (images[i].newTag == id || id + "." <= images[i].newTag) {
      assert Manages(images[i], image, id + "." + s);
    }
  }

  lemma IdentifiedExactly(tag: string, id: string)
    requires Free(id, '.')
    ensures TagIdentifier(tag) == id <==> tag == id || id + "." <= tag
  {
    if tag == id {
      IdentifierOf(id, "");
    } else if id + "." <= tag {
      assert tag == id + "." + tag[|id| + 1..];
      IdentifierOf(id, tag[|id| + 1..]);
    } else {
      IdentifierInFront(tag);
    }
  }

  lemma IdentifierInFront(tag: string)
    ensures tag == TagIdentifier(tag) || TagIdentifier(tag) + "." <= tag
  {
    var k := IndexOf(tag, '.');
    if k < |tag| {
      assert tag[..k + 1] == TagIdentifier(tag) + ".";
    } else {
      assert tag[..k] == tag;
    }
  }

  // ---- Laws of retagging ----

  /** Whatever reads an entry back with its name and its new tag has nothing left to do. */
  lemma RetaggedStays(entry: Image, image: string, newTag: string, reread: Image)
    requires reread.name == entry.name && reread.newTag == Retagged(entry, image, newTag).newTag
    ensures Retagged(reread, image, newTag) == reread
    ensures Manages(entry, image, newTag) ==> Manages(reread, image, newTag)
  {
  }

  /** A list with the same names that carries the tags of the updated one is still
      managed, and the push repeated on it changes nothing. */
  lemma RereadStays(images: seq<Image>, image: string, newTag: string, updated: seq<Image>, reread: seq<Image>,
                    again: seq<Image>)
    requires Managed(images, image, newTag) && Retagging(images, image, newTag, updated)
    requires |reread| == |images|
    requires forall i :: 0 <= i < |images| ==> reread[i].name == images[i].name && reread[i].newTag == updated[i].newTag
    ensures Managed(reread, image, newTag)
    ensures Retagging(reread, image, newTag, again) <==> again == reread
  {
    forall i | 0 <= i < |images|
      ensures Retagged(reread[i], image, newTag) == reread[i]
      ensures Manages(images[i], image, newTag) ==> Manages(reread[i], image, newTag)
    {
      RetaggedStays(images[i], image, newTag, reread[i]);
    }
    var i :| 0 <= i < |images| && Manages(images[i], image, newTag);
    assert Manages(reread[i], image, newTag);
  }

  /** A push repeated is still managed and changes nothing. */
  lemma RetaggingIsIdempotent(images: seq<Image>, image: string, newTag: string, once: seq<Image>, twice: seq<Image>)
    requires Managed(images, image, newTag) && Retagging(images, image, newTag, once)
    ensures Managed(once, image, newTag)
    ensures Retagging(once, image, newTag, twice) <==> twice == once
  {
    RereadStays(images, image, newTag, once, once, twice);
  }

  /** Two pushes do not compete: they concern different repository paths, or different
      identifiers of one path. */
  predicate Independent(imageA: string, tagA: string, imageB: string, tagB: string) {
    RepositoryPath(imageA) != RepositoryPath(imageB) ||
    (HasIdentifier(tagA) && HasIdentifier(tagB) && TagIdentifier(tagA) != TagIdentifier(tagB))
  }

  /** An independent push leaves the other's entries, and so its outcome, alone. */
  lemma IndependentPush(images: seq<Image>, imageA: string, tagA: string, imageB: string, tagB: string, a: seq<Image>)
    requires Independent(imageA, tagA, imageB, tagB) && Retagging(images, imageA, tagA, a)
    ensures Managed(a, imageB, tagB) <==> Managed(images, imageB, tagB)
    ensures forall i :: 0 <= i < |images| ==> (Takes(a[i], imageB, tagB) <==> Takes(images[i], imageB, tagB))
    ensures forall i :: 0 <= i < |images| && Takes(images[i], imageB, tagB) ==> !Takes(images[i], imageA, tagA)
  {
    forall i | 0 <= i < |images|
      ensures Takes(a[i], imageB, tagB) <==> Takes(images[i], imageB, tagB)
      ensures Manages(a[i], imageB, tagB) <==> Manages(images[i], imageB, tagB)
    {
    }
    if Managed(images, imageB, tagB) {
      var i :| 0 <= i < |images| && Manages(images[i], imageB, tagB);
      assert Manages(a[i], imageB, tagB);
    }
    if Managed(a, imageB, tagB) {
      var i :| 0 <= i < |a| && Manages(a[i], imageB, tagB);
      assert Manages(images[i], imageB, tagB);
    }
  }

  /** Independent pushes give the same list, and fail alike, in either order. */
  lemma IndependentPushesCommute(images: seq<Image>, imageA: string, tagA: string, imageB: string, tagB: string,
                                 a: seq<Image>, ab: seq<Image>, b: seq<Image>, ba: seq<Image>)
    requires Independent(imageA, tagA, imageB, tagB)
    requires Retagging(images, imageA, tagA, a) && Retagging(a, imageB, tagB, ab)
    requires Retagging(images, imageB, tagB, b) && Retagging(b, imageA, tagA, ba)
    ensures ab == ba
    ensures Managed(images, imageA, tagA) && Managed(a, imageB, tagB) <==>
              Managed(images, imageB, tagB) && Managed(b, imageA, tagA)
  {
    IndependentPush(images, imageA, tagA, imageB, tagB, a);
    IndependentPush(images, imageB, tagB, imageA, tagA, b);
    assert forall i :: 0 <= i < |images| ==> ab[i] == ba[i];
  }

  /** A plain tag does not reach entries that carry an identifier: a managed push can
      leave every entry behind its tag. It leaves none behind exactly when the push is
      dotted or no entry of the path has an identifier of its own. */
  lemma EveryEntryReached(images: seq<Image>, image: string, newTag: string, updated: seq<Image>)
    requires Retagging(images, image, newTag, updated)
    ensures (forall i :: 0 <= i < |images| && Manages(images[i], image, newTag) ==> updated[i].newTag == newTag) <==>
            (HasIdentifier(newTag) || forall i :: 0 <= i < |images| && RefersTo(images[i], image) ==>
             !HasIdentifier(images[i].newTag))
  {
    if !HasIdentifier(newTag) {
      forall i | 0 <= i < |images| && RefersTo(images[i], image)
        ensures updated[i].newTag == newTag <==> !HasIdentifier(images[i].newTag)
      {
      }
    }
  }
}
