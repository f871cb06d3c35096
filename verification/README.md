# Verification of image-updater

image-updater takes an "image pushed" event off a queue, works out from its rules which
`kustomization.yaml` files follow that image, edits the files line by line, and opens one
pull request for each manifest repository. This project models that path in Dafny and
proves properties of it:

* **The line editor.** A parsed file is kept as its lines plus recorded line and column
  positions. `Kustomization.Document` edits, inserts and splices lines while the old
  positions stay in use. Its methods are proved equal to edit scripts (`EditScript`,
  `Layout`), splices (`CommentBlock`) and written scalars (`Scalar`). About these it is
  proved that every tag reads back, that every other line survives, that recorded positions
  keep naming their lines, and that a patch repeated changes nothing (`Patching`). The file
  written is the file that is read: no tag and no metadata value breaks a line in two
  (`WholeLines`, `LineFile`).
* **The delivery protocol.** `Planning`, `Planner` and `Branches` turn rules into one plan
  for each repository. `Delivery` carries the plans out against a git host whose calls may
  fail, or take effect and still report a failure; what a push does follows from the
  history of the commits (`Git`). `Redelivery` proves what holds over every run of
  redeliveries while pull requests are merged and the base branch moves, `Overlays` says
  the same of the file texts on the branch, and `Endings` names every outcome that is not
  repeated. `Service` joins rules, plan, delivery and acknowledgement, and `Proposals`
  follows a rule to the files on its branch.
* **The visibility lease.** `Lease` is the renewal loop of the queue source, in nanoseconds.
* **Rules.** `Rules`, `ManifestURL` and `SegmentExpansion` cover matching, captures and the
  checks on the expanded location. `Expansion` replaces one name after the other, as the
  program does; `Substitution`, `Clashes` and `BlankSegments` say exactly for which rules
  that replaces them all at once and keeps the segments of a path in their places.
  `Directories` resolves a location on a directory tree, `ImageTags` selects the tags, and
  `Labels` normalises label values.

The methods follow the program's own control flow. Library code is a parameter: the YAML
string test and the printable runes (`Scalar.Library`), encoding and decoding of the
metadata document and the trimming of marker lines (`Metadata.Format`), lower-casing and the
digest (`Planning.Naming`), the URL parser, the answers of the git host
(`Delivery.Script`), the base branch (`Redelivery.Base`, for which `Overlays.BaseOf` puts a
directory tree) and the clock (`Lease.Round`). What a result needs from a parameter is a
named precondition: `Scalar.Sound`, `Metadata.DistinctMarkers`, `Metadata.ReadsBack` (of the
one document at hand), `WholeLines.WholeMarkers`, `SegmentExpansion.ReadsLiterally`,
`Redelivery.Faithful`, `Overlays.AnswersFrom`. Likewise `Layout.Laid` says what the YAML
parser reports about a block-style images list: each item ends on a line of its own stretch,
and each tag is located on its line. Of the git host nothing is assumed beyond git's rule
for pushes that are not forced.

Results that are not what a reader of the code might expect:

* A plain scalar followed by a tab and `#` is measured with the comment in it
  (`Scalar.PlainLengthBeforeComment` says exactly when).
* A `newTag:` without a value gets the tag where the YAML library places the empty value;
  right behind the colon no blank is put in between (`Layout.FilledInReads`).
* In a file with CRLF line ends the carriage return behind a plain scalar is measured as
  part of it, and lost when the tag is rewritten, unless a comment stands in between
  (`Scalar.CarriageReturnIsSwallowed`).
* A plain tag pushed against entries that carry an identifier is a success that leaves them
  behind (`ImageTags.EveryEntryReached`).
* With one target the branch follows the spelling of the repository URL, with several it
  does not (`Branches.OneTargetKeepsCase`, `Branches.ManyTargetsIgnoreOrderAndCase`).
* Replacing captures one after the other is not always replacing them at once. It is,
  whatever the values, exactly when no two captures of the template stand side by side of
  which the second can complete the first to a captured name visited later
  (`Clashes.SimultaneousExactly`); if that name is as long as the second, the same event
  can expand differently from one run to the next (`Clashes.OrderShows`). The comment on
  rules forbids mixing `$1` and `$10` in one rule altogether (`internal/model/rule.go:52-53`).
* A segment of the location whose captures are all blank vanishes and moves the later ones
  forward (`BlankSegments.SegmentsKeepTheirPlaces` says exactly when), as for a tag that
  starts with a dot (`BlankSegments.LeadingDotMovesSegments`).
* A branch that is on the remote is not always left alone: a later attempt replaces it
  exactly when the base it cloned contains what the branch points at, as after a merge that
  kept the branch (`Redelivery.BranchReplacedExactly`).
* The escape check behind the segment checks, and the symlink check on a directory the walk
  came to, can never refuse (`ManifestURL.ParseManifestURL`, `Directories.WalkFile`).
* A renewal call that uses up its timeout and fails is retried before the lease runs out
  from three nanoseconds of lease on (`Lease.RetriedInTimeExactly`).

Run `dafny verify dfyconfig.toml`.

## Model

| member | source | states |
|---|---|---|
| LineFile.TextReadsBack | internal/infrastructure/manifest/kustomize/document.go:55-57 | a file that is not edited is written back character for character |
| LineFile.LinesReadBack | internal/infrastructure/manifest/kustomize/document.go:90-96 | written lines are read back as the same lines exactly when the file kept its final newline, has one line, or ends in a non-empty line |
| Scalar.QuotedTokenLength | internal/infrastructure/manifest/kustomize/document.go:288-310 | the byte loop returns n exactly when a well-formed quoted token ends at n |
| Scalar.ScalarTokenLength | internal/infrastructure/manifest/kustomize/document.go:267-278 | whatever token of a known style stands at the front, its length is returned; other styles are refused |
| Scalar.CloseIsToken | internal/infrastructure/manifest/kustomize/document.go:293-307 | skipping escapes pair by pair closes exactly where the token's body is well formed |
| Scalar.PlainLengthOfToken | internal/infrastructure/manifest/kustomize/document.go:280-286 | a plain token followed by blanks, or by spaces and a comment, is measured exactly |
| Scalar.PlainLengthBeforeComment | internal/infrastructure/manifest/kustomize/document.go:280-286 | in front of a comment the plain scanner is right if and only if the last blank is a space |
| Scalar.TabHidesComment | internal/infrastructure/manifest/kustomize/document.go:280-286 | behind a tab the comment is counted into the token |
| Scalar.CarriageReturnIsSwallowed | internal/infrastructure/manifest/kustomize/document.go:280-286 | in front of a carriage return a plain token is measured right exactly when a comment stands in between |
| Scalar.TokensAgree | internal/infrastructure/manifest/kustomize/document.go:267-310 | one column of one line carries one token, of one style, with one value |
| Scalar.ReadsOneValue | internal/infrastructure/manifest/kustomize/document.go:267-310 | a line never reads as two values at one column |
| Scalar.EscapeAllDecodes | internal/infrastructure/manifest/kustomize/document.go:313-318 | decoding the double-quoted form gives back every value |
| Scalar.FormatEncodes | internal/infrastructure/manifest/kustomize/document.go:313-343 | the written token stands for the value in its style, and one that is not quoted is a string to the library as it stands |
| Scalar.PlainExactly | internal/infrastructure/manifest/kustomize/document.go:320-343 | a value is written without quotes exactly when it has a safe first character, tag characters only, and is a string to the library |
| Scalar.FormatReadsBack | internal/infrastructure/manifest/kustomize/document.go:244-244 | a written token reads back as the same value, and as a string, in whatever line it is put, in front of any tail |
| Scalar.FormatOneLine | internal/infrastructure/manifest/kustomize/document.go:313-318 | no value can add a line to the file |
| EditScript.BottomUp | internal/infrastructure/manifest/kustomize/document.go:98-108 | applying edits last to first grows the file by its insertions |
| EditScript.OriginalLine | internal/infrastructure/manifest/kustomize/document.go:98-108 | every original line survives at its moved index, replaced or as it was |
| EditScript.InsertedLine | internal/infrastructure/manifest/kustomize/document.go:249-264 | an inserted line is found directly below the line it was inserted under |
| EditScript.EditTakesEffect | internal/infrastructure/manifest/kustomize/document.go:98-108 | each edit takes effect although it was placed by its old position |
| EditScript.MovedKeepsOrder | internal/infrastructure/manifest/kustomize/document.go:98-108 | the surviving lines keep their order |
| Layout.ShiftMovesPositions | internal/infrastructure/manifest/kustomize/document.go:189-194 | shifting moves every recorded line of the tree by the same amount |
| Layout.ShiftKeepsTheRest | internal/infrastructure/manifest/kustomize/document.go:189-194 | and changes nothing else of any node, at any depth |
| Layout.ScriptOrdered | internal/infrastructure/manifest/kustomize/document.go:98-127 | the edits of a block-style images list rise with its items |
| Layout.EditDependsOnStretch | internal/infrastructure/manifest/kustomize/document.go:110-127 | an item is edited alike on any file that agrees with the parsed one down to its last line |
| Layout.RetaggedLength | internal/infrastructure/manifest/kustomize/document.go:98-127 | the file grows by exactly the number of changed items that had no tag |
| Layout.OtherLinesSurvive | internal/infrastructure/manifest/kustomize/document.go:98-127 | every line that holds no changed tag is in the new file unchanged |
| Layout.HeadStays | internal/infrastructure/manifest/kustomize/document.go:98-127 | the images key and every line above it stay where they were |
| Layout.TagNodeIsFirst | internal/infrastructure/manifest/kustomize/document.go:120-124 | the tag of an item is the value behind the first key `newTag` |
| Layout.ChangedTagReadsBack | internal/infrastructure/manifest/kustomize/document.go:223-246 | a changed tag reads back as the new one, as a string, and its line is otherwise as it was, in front of the token and behind it |
| Layout.OtherTagReadsBack | internal/infrastructure/manifest/kustomize/document.go:98-127 | a tag not asked to change reads back as the old one |
| Layout.NewEntryReadsBack | internal/infrastructure/manifest/kustomize/document.go:249-264 | an added entry is spaces up to the column of its item, `newTag: ` and the written tag, and reads back as the tag |
| Layout.FilledInReads | internal/infrastructure/manifest/kustomize/document.go:223-246 | a tag in the place of an empty value reads back at its column, and is separated from its key exactly when the empty value was |
| Layout.EntryReadsBack | internal/infrastructure/manifest/kustomize/document.go:98-127 | every item reads back as its new tag, or as its old one where none was asked for, on an entry of its own or its otherwise unchanged line |
| Kustomization.SwapToken | internal/infrastructure/manifest/kustomize/document.go:233-244 | only the located token is swapped; the text around it stays |
| Kustomization.LastContentLine | internal/infrastructure/manifest/kustomize/document.go:250-255 | the loop finds the greatest line among the entries |
| Kustomization.Document.ReplaceScalar | internal/infrastructure/manifest/kustomize/document.go:223-246 | only the scalar's line changes, and there only its token; a failure changes nothing |
| Kustomization.Document.AppendMappingEntry | internal/infrastructure/manifest/kustomize/document.go:249-264 | one line is inserted below the last entry, or the call fails; it is the key `newTag` in the column of the item and the written tag |
| Kustomization.Document.SetNewTag | internal/infrastructure/manifest/kustomize/document.go:110-127 | on a laid-out item, the one edit the item calls for; a `newTag` without a value gets the tag where the empty value is |
| Kustomization.FindNewTag | internal/infrastructure/manifest/kustomize/document.go:119-124 | the value of the first `newTag` key, if there is one |
| Kustomization.Document.SetNewTags | internal/infrastructure/manifest/kustomize/document.go:101-108 | on a block-style list the bottom-up loop succeeds and yields the file with every item edited |
| Kustomization.NextEdit | internal/infrastructure/manifest/kustomize/document.go:98-108 | the positions of the next item up are still valid on the file edited below it |
| Kustomization.Document.HeadCommentRange | internal/infrastructure/manifest/kustomize/document.go:198-205 | the longest run of comments directly above the images key |
| Kustomization.FindManifestBlock | internal/infrastructure/manifest/kustomize/document.go:208-219 | the first closed block of the range, opened at the nearest begin marker, or none |
| Kustomization.Document.Shift | internal/infrastructure/manifest/kustomize/document.go:178-187 | the key and every node move by the same amount |
| Kustomization.Document.PlanSplice | internal/infrastructure/manifest/kustomize/document.go:138-163 | the splice replaces the first block, or goes on top of the head comments, with the upserted document |
| Kustomization.Document.UpsertImageManifest | internal/infrastructure/manifest/kustomize/document.go:137-174 | one splice of old text, fresh block and old text; fails, leaving the document alone, exactly when the block cannot be rendered |
| CommentBlock.FirstBlockIsUnique | internal/infrastructure/manifest/kustomize/document.go:208-219 | a range has one first block |
| CommentBlock.LinesKept | internal/infrastructure/manifest/kustomize/document.go:165-173 | lines above the block stay, lines below keep their text and move by the growth of the block |
| CommentBlock.NamesKept | internal/infrastructure/manifest/kustomize/document.go:176-194 | after an upsert the images key and every node still name the line they named |
| CommentBlock.NamesKeptThroughout | internal/infrastructure/manifest/kustomize/document.go:176-194 | so they do after any sequence of upserts |
| CommentBlock.HeadFoundAgain | internal/infrastructure/manifest/kustomize/document.go:198-205 | the head comments of the new file start where they started |
| CommentBlock.BlockInColumn | internal/infrastructure/manifest/kustomize/document.go:158-163 | every line of the block is a comment in the column of the images key |
| CommentBlock.BlockOnTop | internal/infrastructure/manifest/kustomize/document.go:171-173 | without a block to replace the new one is on top of the comments above the images key, and every line that was there follows or precedes it as before |
| CommentBlock.BlockReplaced | internal/infrastructure/manifest/kustomize/document.go:165-169 | a block that is there is replaced in its place, and no other line is touched |
| CommentBlock.BlockFoundAgain | internal/infrastructure/manifest/kustomize/document.go:137-219 | the rendered block is found again at the same start, below the same comments, and what is read out of it is the encoded text without the newlines at its end |
| CommentBlock.UpsertIsDeterministic | internal/infrastructure/manifest/kustomize/document.go:137-174 | an upsert has one outcome, with a block to replace or without |
| CommentBlock.SecondUpsertIsIdentity | internal/infrastructure/manifest/kustomize/document.go:137-174 | upserting the same manifest again succeeds and changes nothing, lines and positions alike |
| Metadata.ProgramMarkers | internal/model/manifest.go:19-22 | the program's own markers are distinct and survive trimming |
| Kustomization.ExistingContent | internal/infrastructure/manifest/kustomize/document.go:141-149 | the entries the block decodes to; none when it is no document |
| Metadata.ImageManifestDocument.Upsert | internal/model/manifest.go:95-114 | the entry of the image becomes the new one, entries of other images stay, the list is sorted |
| Metadata.UpsertIsUnique | internal/model/manifest.go:95-114 | that determines the list |
| Metadata.UpsertIsIdempotent | internal/model/manifest.go:95-114 | a second upsert of the manifest leaves the list, and nothing else, as outcome |
| Metadata.UpsertsCommute | internal/model/manifest.go:95-114 | upserts of different images give the same list in either order |
| Metadata.UpsertHolds | internal/model/manifest.go:95-114 | the upserted entry is in the list |
| Metadata.SortStableIsStable | internal/model/manifest.go:113-113 | sorting keeps the order of the entries of one image |
| Metadata.UncommentComment | internal/model/manifest.go:224-238 | uncommenting undoes commenting behind any margin of blanks |
| Metadata.CarriesMarker | internal/model/manifest.go:154-158 | the loop finds a body line that would read as a marker if there is one |
| Metadata.EncodedTextExactly | internal/model/manifest.go:129-139 | a document is encoded under the program's name and version at an indent from 2 to 9, 2 for any other |
| Metadata.RenderImageManifestComment | internal/model/manifest.go:129-168 | the lines of the encoded text, newlines at its end cut off, commented between the markers; nothing if encoding fails or a line carries a marker |
| Metadata.ParseImageManifestComment | internal/model/manifest.go:177-196 | the decoder gets the uncommented lines without the markers, joined again |
| Metadata.BlockRoundTrip | internal/model/manifest.go:129-196 | under any margins the body read is the body rendered, and the markers are the first and the last line only |
| Metadata.UnguardedBodyIsLost | internal/model/manifest.go:149-158 | the marker guard is exact: a body it refuses would not survive |
| ImageTags.RepositoryPathOfMirror | internal/infrastructure/manifest/kustomize/patcher.go:374-399 | the path of an image depends neither on its registry nor on its tag or digest |
| ImageTags.RepositoryPathOfPlainName | internal/infrastructure/manifest/kustomize/patcher.go:374-399 | without a registry in front the path is all of the name but its tag |
| ImageTags.RegistryExactly | internal/infrastructure/manifest/kustomize/patcher.go:389-391 | a first segment names a registry exactly when it has a dot or a colon or is `localhost` |
| ImageTags.ReplaceTag | internal/infrastructure/manifest/kustomize/patcher.go:324-372 | the new tag on exactly the entries that take it; fails exactly when the push concerns none |
| ImageTags.DottedPush | internal/infrastructure/manifest/kustomize/patcher.go:340-372 | a push of `id.s` replaces on its path the tags `id` and `id.r`, whatever r, and leaves those with another identifier |
| ImageTags.PlainPush | internal/infrastructure/manifest/kustomize/patcher.go:340-372 | a push of a tag without a dot replaces on its path exactly the tags without a dot |
| ImageTags.NotManagedExactly | internal/infrastructure/manifest/kustomize/patcher.go:334-372 | a push is managed exactly when an entry is on its path and, for `id.s`, has the tag `id` or one that starts with `id.` |
| ImageTags.ChangedNewTags | internal/infrastructure/manifest/kustomize/patcher.go:407-418 | exactly the indexes whose tag differs |
| ImageTags.RereadStays | internal/infrastructure/manifest/kustomize/patcher.go:324-372 | a list with the same names that carries the tags of the updated one is still managed, and the push repeated on it changes nothing |
| ImageTags.RetaggingIsIdempotent | internal/infrastructure/manifest/kustomize/patcher.go:324-372 | a push repeated is still managed and changes nothing |
| ImageTags.IndependentPush | internal/infrastructure/manifest/kustomize/patcher.go:324-372 | a push to another path, or with another identifier, leaves the entries of this one alone |
| ImageTags.IndependentPushesCommute | internal/infrastructure/manifest/kustomize/patcher.go:324-372 | independent pushes give the same list, and fail alike, in either order |
| ImageTags.EveryEntryReached | internal/infrastructure/manifest/kustomize/patcher.go:340-372 | a managed push leaves no entry of its own behind exactly when the tag is dotted or no entry of the path has an identifier |
| Patching.SelectChanges | internal/infrastructure/manifest/kustomize/patcher.go:255-264 | not managed, no difference, or the non-empty set of differing tags |
| Patching.Patch | internal/infrastructure/manifest/kustomize/patcher.go:255-278 | the tags are set and then the block upserted if it renders; refusals leave the document alone; on a block-style list it is invalid exactly when an entry to change has no node |
| Patching.PatchReadsBack | internal/infrastructure/manifest/kustomize/patcher.go:255-278 | re-reading the patched file gives every item its new tag, block upsert or not, on a line that is otherwise as it was or is the added entry |
| Patching.SecondPatchMakesNoDifference | internal/infrastructure/manifest/kustomize/patcher.go:215-222 | the same event on the patched file is "no difference", however the file is re-read |
| WholeLines.TextIsReadable | internal/infrastructure/manifest/kustomize/document.go:55-57 | the lines of a text that is not empty are whole, and the last one is not empty where no newline ends the text |
| WholeLines.PatchReadsBackWhole | internal/infrastructure/manifest/kustomize/patcher.go:255-294 | a patched file is written and read back as the lines it has, newlines in tags and metadata values notwithstanding |
| Overlays.PatchOverlay | internal/infrastructure/manifest/kustomize/patcher.go:255-294 | a readable file is rewritten, or it is not managed, or it carries the tag already, and each exactly then |
| Overlays.PatchedReadsAsPushed | internal/infrastructure/manifest/kustomize/patcher.go:255-294 | the text written, taken apart into lines again, carries the new tag in every entry that takes it and the old one in every other; the block above holds the manifest if it is to be written, and else nothing above has changed |
| Overlays.ResolvesOnce | internal/infrastructure/manifest/kustomize/patcher.go:73-155 | a pattern resolves to one list of directories on one tree |
| Overlays.AnswersAreFaithful | internal/infrastructure/manifest/kustomize/patcher.go:73-294 | resolver and patcher, on one checkout, answer as a base branch is assumed to |
| Overlays.NoTagIsLost | internal/application/updater/service.go:302-408 | after any run of failures, one attempt without failures ends acknowledged with a pull request open, and in every directory a target resolves to the manifest on its branch reads as the pushed tag, or carried it already |
| Errors.JoinIsRetryable | internal/model/error.go:54-66 | a joined error is retryable exactly when one of its parts is |
| Planning.Compact | internal/application/updater/service.go:248-264 | the in-place loop leaves the compacted list in front, or reports the conflict |
| Planning.ConsistentExactly | internal/application/updater/service.go:248-264 | targets agree exactly when those of one directory have one environment and one choice of the metadata block |
| Planning.CompactedIsNormalized | internal/application/updater/service.go:240-265 | of sorted targets that list has one target a directory, and the conflict is exactly a disagreement about a directory |
| Planning.NormalizeManifestTargets | internal/application/updater/service.go:240-265 | succeeds exactly when targets that share a directory agree, with one target a directory in increasing order |
| Planning.NormalizedIsConsistent | internal/application/updater/service.go:240-265 | targets that disagree cannot be normalized |
| Planning.NormalizedIsUnique | internal/application/updater/service.go:240-265 | the changes do not depend on the order of the rules or the spelling of the repository |
| Planner.GroupByRepository | internal/application/updater/service.go:163-201 | one group a repository holding exactly its accepted targets; the first location error and the first tag error are kept |
| Planner.FirstLocationErrorIsFirst | internal/application/updater/service.go:174-178 | the error kept is that of the first rule that accepts the tag and has no location |
| Planner.FirstTagErrorIsFirst | internal/application/updater/service.go:166-172 | the error kept is that of the first rule that refuses the tag |
| Planner.Environments | internal/application/updater/service.go:218-227 | the environments of a group, sorted and without repeats |
| Planner.PlanRepository | internal/application/updater/service.go:216-235 | a valid plan; refused exactly for conflicting targets, or for a branch that git would not accept |
| Planner.Plan | internal/application/updater/service.go:153-238 | a successful plan is non-empty, strictly ordered by repository and covers every accepted target; it fails for contradictory rules, and only for those, a rule without location, no accepted tag or a refused branch |
| Planner.PlanNamesEnvironments | internal/application/updater/service.go:216-235 | a plan names the environments of its targets, each once and in order, and its branch the one there is, or `multi` |
| Planner.PlansPartitionChanges | internal/application/updater/service.go:153-238 | every accepted change is planned in exactly one repository plan |
| Branches.IdentityIsFaithful | internal/application/updater/service.go:556-607 | equal identities agree on event, repository, directories and environments; one target is never taken for several |
| Branches.BranchIsFaithful | internal/application/updater/service.go:556-607 | unless the digest collides, so do equal branch names |
| Branches.BranchIsReadable | internal/application/updater/service.go:568-573 | a branch reads as the image without its namespace, underscores for slashes, environment, tag and digest |
| Branches.LegacyIsWithoutDigest | internal/application/updater/service.go:575-589 | for one target, and only then, earlier releases had a name, the branch without its digest |
| Branches.KeyExactly | internal/application/updater/service.go:550-554 | two locations share a key exactly when owner and repository differ in case at most |
| Branches.ValidExactly | internal/application/updater/service.go:611-626 | a planned branch is refused exactly when image, environment or tag brings in two dots in a row or a character git refuses |
| Branches.ManyTargetsIgnoreOrderAndCase | internal/application/updater/service.go:556-577 | with several targets neither the order of rules nor the case of the repository matters |
| Branches.OneTargetKeepsCase | internal/application/updater/service.go:592-609 | with one target the identity is the same exactly when the repository URL is spelt the same |
| Delivery.Host.EnsureNoOpenPullRequest | internal/application/updater/service.go:456-478 | the lookups, the current branch first and then the legacy one, up to a failure or an open pull request |
| Delivery.Host.Push | internal/infrastructure/githost/github/checkout.go:99-117 | success means the branch points at the commit; "duplicate" means it was there and was left alone; only an answer tells either, and whatever is reported the branch moves to the commit only from one of its ancestors |
| Delivery.Host.CreatePullRequest | internal/infrastructure/githost/github/repository.go:195-246 | after a success every later lookup that answers finds the pull request; one rejected as invalid was not created |
| Git.MadeOnBase | internal/application/updater/service.go:367-374 | a commit made on the base descends from itself and from what the base contains, and from nothing else; the base did not contain it |
| Git.MovedExactly | internal/infrastructure/githost/github/checkout.go:99-117 | such a commit moves a branch that is there exactly when the base contains what the branch points at, as far as can be seen |
| Delivery.ResolveManifestTargets | internal/application/updater/service.go:410-447 | one change for every directory of every target and no other, in increasing order of directory; failures are told apart as terminal or retryable |
| Delivery.ResolvedExactly | internal/application/updater/service.go:410-447 | targets are resolved exactly if each one is, to a directory at least, and then into the changes of all their directories and no other |
| Delivery.PatchManifests | internal/application/updater/service.go:337-365 | the commit of all rewritten files, or the first failure as terminal or retryable |
| Delivery.ApplyRepository | internal/application/updater/service.go:302-408 | one attempt does what the step relation says and touches no other repository |
| Delivery.AcknowledgedExactly | internal/application/updater/service.go:293-300 | the event is retried exactly when some repository ended with a retryable failure |
| Delivery.Apply | internal/application/updater/service.go:269-300 | a message that fails to render leaves every remote alone; otherwise every repository is attempted once |
| Redelivery.PushedCommitIsComplete | internal/application/updater/service.go:337-374 | a push holds every directory any of its targets resolves to, each rewritten or in need of no change, at least one rewritten, and nothing else |
| Redelivery.AcknowledgedPushIsOpen | internal/application/updater/service.go:374-398 | an attempt that reached the push is acknowledged only with an open pull request or one rejected as invalid |
| Endings.AcknowledgedIsSettled | internal/application/updater/service.go:302-447 | an attempt goes unrepeated only with a pull request open or created, or for one of the terminal errors named, each with the target, manifest or answer that brought it about |
| Endings.OnlyTransientFailuresRepeat | internal/application/updater/service.go:302-447 | without a transient failure an attempt is acknowledged, whatever it ran into |
| Redelivery.AttemptIsSafe | internal/application/updater/service.go:308-398 | one attempt leaves the base, other branches and other pull requests alone, and opens a pull request only where none is open and the branch is on the remote |
| Redelivery.RunBalances | internal/application/updater/service.go:308-398 | in every run the open pull requests are those opened less those closed |
| Redelivery.OneOpenAtMost | internal/application/updater/service.go:308-398 | in every run at most one pull request for the branch is open |
| Redelivery.OpenedAtMostOnce | internal/application/updater/service.go:308-398 | in every run one pull request at most is opened while none is closed |
| Redelivery.BranchReplacedExactly | internal/infrastructure/githost/github/checkout.go:99-117 | an attempt replaces a branch exactly when it pushes, the push gets through and the base contains what the branch points at; the new commit descends from the old one |
| Redelivery.OneWritePerBranch | internal/application/updater/service.go:367-388 | in every run in which the base never contains the branch, it is written at most once, and then exactly when it is there at the end and was not at the start |
| Redelivery.OtherBranchesUntouched | internal/application/updater/service.go:367-388 | no run writes the branch of another update |
| Redelivery.PushedCommitIsRight | internal/application/updater/service.go:337-374 | with an unchanged base the pushed commit has the right file for every directory of every target that is not right already |
| Redelivery.RunStaysSane | internal/application/updater/service.go:308-398 | through every run the branch is absent or holds the complete update |
| Redelivery.FailureFreeAttemptOpens | internal/application/updater/service.go:302-408 | from every remote state an attempt without failures is acknowledged with a pull request open |
| Redelivery.NoUpdateIsLost | internal/application/updater/service.go:374-388 | after any run of failures, one attempt without failures ends acknowledged, with a pull request open for a branch that holds the complete update |
| Redelivery.AttemptsOnDifferentBranchesCommute | internal/application/updater/service.go:302-408 | updates on different branches of one repository end the same way in either order |
| Redelivery.FailureFreeDeliveryOpensAll | internal/application/updater/service.go:293-300 | a delivery without failures opens every planned repository's pull request and is acknowledged |
| Redelivery.AcknowledgedDeliveryIsOpen | internal/application/updater/service.go:293-300 | an acknowledged delivery left no repository behind that it pushed to |
| Service.PlannedKeysAreDistinct | internal/application/updater/service.go:207-212 | no repository is attempted twice in one delivery |
| Service.PlanEvent | internal/application/updater/service.go:153-238 | no plan exactly when no rule covers the event, or for one of the named reasons, never one to retry; otherwise the plan covers what the most specific rules accept |
| Service.Handle | internal/application/updater/service.go:119-126 | an event that cannot be planned touches no remote and is terminal; one that can is carried out on every repository |
| Service.Process | internal/infrastructure/queue/sqs/source.go:209-257 | a message leaves the queue exactly when it was finished and its deletion got through; it is unfinished exactly when it was carried out and some repository ended with a retryable failure |
| Service.Queue.Acknowledge | internal/infrastructure/queue/sqs/source.go:359-377 | the message is removed unless it has no receipt handle or the call did not reach the queue |
| Proposals.DecidingIsPlanned | internal/application/updater/service.go:153-238 | a most specific rule that accepts the tag has a plan in the repository of its location, with its directory, its environment and its choice of the metadata block |
| Proposals.EveryAcceptedRuleIsProposed | internal/application/updater/service.go:119-408 | without failures it ends with its branch proposed, which has the right file for every directory the location resolves to, unless the base has it |
| Proposals.TagReachesTheFiles | internal/application/updater/service.go:119-408 | the same in the texts: every manifest the location resolves to reads as the pushed tag on that branch, or carried it already |
| Proposals.LegacyBlocks | internal/application/updater/service.go:456-478 | while a pull request is open under the plan's branch or its name in earlier releases, an attempt changes nothing |
| Lease.RenewOnce | internal/infrastructure/queue/sqs/source.go:303-349 | the whole lease or every full second of lifetime left, a positive timeout and wait, and the new deadline only after a success |
| Lease.RenewVisibility | internal/infrastructure/queue/sqs/source.go:287-352 | every call of the loop is made in its round when its timer was due; the loop ends when it is cancelled or less than a second of lifetime is left |
| Lease.RenewalsFollow | internal/infrastructure/queue/sqs/source.go:287-352 | every call of a run asks for 1 to the configured seconds, ends within the lifetime and follows the call before it |
| Lease.EndsWithinLifetime | internal/infrastructure/queue/sqs/source.go:303-320 | every call ends its lease a second before twelve hours are over and takes five seconds and a quarter of the lease at most |
| Lease.RetriedInTimeExactly | internal/infrastructure/queue/sqs/source.go:312-349 | a call that uses its whole timeout and fails is retried before the lease runs out exactly from three nanoseconds on |
| Lease.FailuresLeaveAPower | internal/infrastructure/queue/sqs/source.go:312-349 | after n failures in a row at least the 4^n-th part of the lease is left |
| Lease.RenewedInTime | internal/infrastructure/queue/sqs/source.go:328-333 | while renewals succeed the next call starts before the granted lease runs out, from whatever moment it was granted |
| Lease.HiddenThroughout | internal/infrastructure/queue/sqs/source.go:287-352 | calls less than a lease apart hide the message without a gap |
| Lease.SuccessesStayClose | internal/infrastructure/queue/sqs/source.go:328-333 | two successful calls are less than a lease apart exactly when calls and losses take less than half of it |
| Lease.HiddenWhileRenewed | internal/infrastructure/queue/sqs/source.go:287-352 | a run of successful, uncapped calls hides the message without a gap from its receipt on, if from the receipt to the end of the first call and from each call to the end of the next less than half a lease is spent beyond the waits |
| Expansion.ExpandVariables | internal/model/rule.go:399-411 | the names are replaced one after the other, longer ones first, in an order the map decides among equals |
| Substitution.TokensRender | internal/model/rule.go:406-408 | a template is the text of its tokens, the maximal runs of "$" and digits and what is between them |
| Substitution.SequentialIsSimultaneous | internal/model/rule.go:397-411 | without a clash of neighbouring names every visiting order gives the simultaneous substitution |
| Clashes.SimultaneousExactly | internal/model/rule.go:397-411 | for a template of captured names, every order and all values give the simultaneous substitution if and only if no two neighbouring names clash |
| Clashes.OrderShows | internal/model/rule.go:397-411 | for a clash with a name of equal length there are values and two allowed orders that give different texts |
| Expansion.AdjacentNamesDependOnOrder | internal/model/rule.go:397-411 | a template, values and two allowed orders that give different texts |
| ManifestURL.ValidateManifestPath | internal/model/rule.go:449-465 | no climbing segment, wildcards only as whole segments, at most one of them |
| ManifestURL.JoinedEntriesStayBelow | internal/model/rule.go:434-439 | joining entries writes a slash between them and never leaves the repository |
| ManifestURL.EscapesExactly | internal/infrastructure/manifest/kustomize/patcher.go:157-166 | a relative path is taken for one that escapes exactly when, read from the left, it climbs above where it starts |
| ManifestURL.ParseManifestURL | internal/model/rule.go:413-447 | succeeds exactly on a site URL with owner, repository and valid segments; the escape check never fires |
| SegmentExpansion.ReplaceAcross | internal/model/rule.go:406-408 | replacing a name works on both sides of a slash separately |
| SegmentExpansion.ExpandSplits | internal/model/rule.go:399-411 | the segments of the expanded text are the expanded segments |
| BlankSegments.SegmentBlankExactly | internal/model/rule.go:469-475 | a segment expands to blanks exactly when its literal text is blank and so is every capture in it |
| BlankSegments.SegmentsKeepTheirPlaces | internal/model/rule.go:469-475 | segments keep their places exactly when each that is not blank shows literal text or a capture that is not blank |
| BlankSegments.EmptyCaptureVanishes | internal/model/rule.go:469-475 | a segment that is one empty capture leaves the path as if the template did not have it |
| BlankSegments.LeadingDotMovesSegments | internal/model/rule.go:317-347 | a tag that starts with a dot does so for every rule that uses the first piece of the tag as a segment |
| SegmentExpansion.LocationIsTheExpandedTemplate | internal/model/rule.go:222-244 | ordinary captures give the template's segments, each expanded, with the wildcard where it was |
| Rules.Match | internal/model/rule.go:292-314 | same host, as many segments, literal ones equal; the weight is the number of literals |
| Rules.CoversExactly | internal/model/rule.go:292-314 | a pattern covers what differs from it only where it has `*` or a variable |
| Rules.LiteralsCounted | internal/model/rule.go:304-312 | the weight is the number of segments that are neither `*` nor hold a `$` |
| Rules.Matches | internal/model/rule.go:146-167 | exactly the covering rules with the most literals, in declaration order; none exactly when none covers |
| Rules.MoreLiteralsWin | internal/model/rule.go:146-167 | of two covering rules one with the literals of the other and one more keeps it from being chosen |
| Rules.CoveringKeepsOrder | internal/model/rule.go:146-167 | the rules chosen stand in the order of their declaration, each as often as it is declared |
| Rules.Variables | internal/model/rule.go:317-347 | the captures of segments and tag pieces, later ones replacing earlier; none exactly when a place is missing |
| Rules.BoundOnce | internal/model/rule.go:323-344 | a name that occurs once is bound to what stands in its place |
| Rules.CapturesAreTheirPlaces | internal/model/rule.go:317-347 | every capture stands in the pushed image where the pattern has its name |
| Rules.SplitImagePattern | internal/model/rule.go:376-395 | no part of a pattern holds a slash |
| Rules.PatternIsItsParts | internal/model/rule.go:376-395 | the segments of a pattern are its host, its path and, behind the first colon of the last one, its tag pieces |
| Rules.CompileRule | internal/model/rule.go:246-288 | a rule is compiled exactly when it has host, path and a usable location template |
| Rules.ValidateTag | internal/model/rule.go:200-214 | refused by the allow pattern first, then by any deny pattern |
| Rules.TagErrorExactly | internal/model/rule.go:200-214 | refused by a non-empty allow pattern it does not match, else denied exactly when a deny pattern matches it |
| Rules.EmptyDenyIsIgnored | internal/model/rule.go:266-278 | an empty deny pattern denies nothing, not even an empty tag |
| Rules.Location | internal/model/rule.go:222-244 | the location of the expanded template, or a refusal of missing, unsafe or unresolved captures |
| Rules.LocationIsConfined | internal/model/rule.go:222-244 | a location is on the site, its directory climbs nowhere and has one recursive wildcard at most, and no capture brought a slash, a wildcard or dots into it |
| Rules.LocationOfOrdinaryCaptures | internal/model/rule.go:222-244 | for a compiled rule and visible captures only an unsafe capture or an unresolved name can fail |
| Rules.MatchRules | internal/application/updater/service.go:154-170 | every most specific rule with its tag decision and location |
| Directories.SymlinkCheckFinds | internal/infrastructure/manifest/kustomize/patcher.go:157-182 | a path is called invalid exactly when one of its components is a symbolic link |
| Directories.RejectSymlinkPath | internal/infrastructure/manifest/kustomize/patcher.go:157-182 | a path is refused when it is absolute, climbs out of the checkout, or its clean form meets a symbolic link |
| Directories.EntriesAreChecked | internal/infrastructure/manifest/kustomize/patcher.go:157-182 | of a path of plain entries exactly its components decide |
| Directories.MatchesRecursiveManifestPath | internal/infrastructure/manifest/kustomize/patcher.go:192-210 | holds exactly when the candidate is prefix, any middle, suffix |
| Directories.WalkFile | internal/infrastructure/manifest/kustomize/patcher.go:111-141 | a regular manifest file gives its directory exactly when that matches; its symlink check never refuses |
| Directories.Walk | internal/infrastructure/manifest/kustomize/patcher.go:98-142 | exactly the matching directories below the entry with no .git on the way, each once |
| Directories.SelectedIsVisited | internal/infrastructure/manifest/kustomize/patcher.go:91-98 | starting at the fixed prefix misses nothing |
| Directories.NothingMatches | internal/infrastructure/manifest/kustomize/patcher.go:91-142 | a pattern with a segment to clean in front of its wildcard matches no directory of the tree |
| Directories.SelectedHasNoLink | internal/infrastructure/manifest/kustomize/patcher.go:136-138 | no component of a resolved directory is a symbolic link |
| Directories.SegmentsComeBack | internal/infrastructure/manifest/kustomize/patcher.go:184-190 | the segments of a directory are recovered from its text |
| Directories.Resolve | internal/infrastructure/manifest/kustomize/patcher.go:73-155 | for every pattern: a literal one unchanged, or exactly the selected directories, sorted and without repeats, and not found exactly when there are none |
| Labels.SanitizeLabelText | internal/model/label_value.go:53-76 | the runs of visible runes, joined by one space, cut to 512 runes without a space at the end |
| Labels.TruncateRunes | internal/model/label_value.go:205-219 | at most limit runes, trailing spaces dropped only when something was cut |
| Labels.ShortenedExactly | internal/model/label_value.go:205-219 | a text that is too long is cut at the limit, and before the spaces it then ends in |
| Labels.LabelTextIsNormalForm | internal/model/label_value.go:43-76 | the text is always in normal form, and a value is left alone exactly when it is so already and short enough |
| Labels.HandleByRuns | internal/model/label_value.go:135-150 | alphanumeric runs between single hyphens, seen rune by rune |
| Labels.SanitizeLabelHandle | internal/model/label_value.go:129-153 | keeps exactly the trimmed values that are such handles of at most 39 characters |

## Left out

- Kustomization.Document.SetNewTag: does not follow flow style, block scalars or several-line scalars, which the program's scanner does not know about; where the YAML library places an empty value is not part of this model, and `Kustomization.Document.SetNewTags` and what builds on it take files whose tags have values.
- Kustomization.Document.Shift: nodes are values of a tree and not references, so a node shared by an alias is not shifted twice as it would be in the program.
- Scalar.FormatReadsBack: a line may not go on with a carriage return, as in a file with CRLF line ends; `Scalar.CarriageReturnIsSwallowed` says what the scanner does there.
- Scalar.ScalarTokenLength: strings are sequences of Unicode scalar values and not of bytes; columns and lengths count characters, and bytes that are not valid UTF-8 are not represented.
- Labels.SanitizeLabelHandle: the length is counted in characters; the program counts bytes, which are as many for every value that passes the check of characters.
- Directories.Resolve: read errors, cancellation and a tree that changes during the walk are not part of it, nor is a checkout that is itself named `.git`; separators are slashes.
- Rules.CompileRule: the regular expressions of tag patterns are predicates that have compiled already.
- Service.Handle: the labels of the image and the texts of commit and pull request do not appear; a message either renders or fails. The repositories of the rules exist at the host.
- Redelivery.NoUpdateIsLost: deliveries of one event do not overlap, nobody else deletes or writes the branch, and the files of the base branch do not change in between; updates on other branches may be interleaved by `Redelivery.AttemptsOnDifferentBranchesCommute`.
- Redelivery.BranchReplacedExactly: whether a push is decided in the working copy, which is one commit deep (`internal/infrastructure/githost/github/repository.go:136-143`), or at the host is the environment's choice in every push.
- Overlays.NoTagIsLost: the entries of the patched text are looked for where parsing the base found them, further down by what was added above; that the YAML library finds them there is not part of this model.
- Lease.RenewVisibility: the goroutine, its timer and its context are the rounds of a loop; the environment chooses every delay, every outcome and the moment of cancellation. The visibility timeout is in the range that the constructor of the source enforces (`internal/infrastructure/queue/sqs/source.go:96-125`).
- The YAML, JSON, URL, regular expression, SHA-256 and template libraries, and the tables of printable runes, are parameters or absent.
- The queue, registry and git host clients: only the classes of their outcomes appear, as choices of the environment.
- Reading and writing files in `Patch`: size limits, file modes and symbolic links at the file itself.
- The worker group of a batch, range checks of the configuration, wiring and shutdown: one or two branches each.
- Label URLs, numbers, tokens and extra labels, pull request bodies and message templates: string formatting with easy members, or unspecified where two keys normalise alike.
- Log output and the wording of errors: an error is the set of sentinels it wraps.
