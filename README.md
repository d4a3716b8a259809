# Cordova `prepare`: configuration merge and hook sequence

This project models two parts of the `prepare` stage of cordova-lib, the
step that turns a project's `config.xml` and `www` into per-platform build
trees. Both are stated as their test suite,
`cordova-lib/spec-cordova/prepare.spec.js`, pins them down. The implementation
file `src/cordova/prepare.js` is not part of this model.

1. **`prepare._mergeXml(src, dst, platform, clobber)`**, which merges one
   element tree into another:
   - Root attributes are added when `dst` lacks them. They are overwritten
     only under `clobber`.
   - Root text is replaced only under `clobber`, and only by non-empty source
     text.
   - A `<platform name=…>` child is a transparent wrapper. Its children are
     merged as if they stood in `src` when `name` is the merged platform.
     Otherwise the wrapper and everything in it are ignored. Only wrappers
     among the children being merged are unpacked: a wrapper nested inside a
     repeatable child that gets appended is copied with it.
   - A singleton child (`author`) is merged recursively, using the same
     rules, into the first destination child with the same name. When there
     is no such child it is appended.
   - Any other child is appended, unless a destination child with the same
     qualified name has an exactly equal attribute dictionary. Text is not
     compared.

   Element trees are the `XmlTree.Element` datatype (qualified name,
   attribute map, text, ordered children). The source mutates `dst` in place.
   Here `ConfigMerge.Merge` returns the new destination, and callers pass it
   on to the next merge. `ConfigMerge.MergeXml` is the loop over the source
   children, proved to compute `Merge`. The test fixture `TEST_XML` is
   `MergeCases.Fixture`, and each `_mergeXml` test case is a lemma in
   `MergeCases`.

2. **The preconditions and hook payloads of `prepare(platform?)`**.
   `Prepare.RunPrepare` takes three inputs:
   - the project root, or none outside a project;
   - the listed platforms;
   - the requested platform, or none.

   It returns the events of the run and the error, if any. A successful run
   fires `before_prepare`. Then, per platform and in order, it runs
   `update_www`, `update_project` and `plugman.prepare`. Last it fires
   `after_prepare`. Both hooks receive
   `{verbose: false, platforms, options: [], paths}`, where `paths[i]` is
   `<root>/platforms/<platforms[i]>/www`.

Rules the tests leave open, and how they are fixed here:
- Only `author` is a singleton (`ConfigMerge.Singletons`). `name`,
  `description` and `content` are treated as repeatable.
- An attribute counts as present when its key is in the map, whatever its
  value.
- When the destination text is empty it is still not filled in without
  `clobber`.
- A merged singleton stays at its position among the destination children.
- A matching platform wrapper is processed where it stands among the source
  children.
- A merge without a platform (the empty platform id, which stands for the
  omitted argument) selects no wrapper.
- The per-platform events of `prepare` are sequential and in list order.

## Model

| member | source | states |
|---|---|---|
| `XmlTree.FindAll` | cordova-lib/spec-cordova/prepare.spec.js:227 | `findall(tag)` returns exactly the children with that qualified name (each result is a child with the name, every such child is in the result) |
| `XmlTree.Count` | cordova-lib/spec-cordova/prepare.spec.js:254 | `findall(tag).length` is at most the number of children |
| `XmlTree.FindAllEmpty` | cordova-lib/spec-cordova/prepare.spec.js:281-282 | `findall(tag)` is empty exactly when no child has the tag |
| `XmlTree.Find` | cordova-lib/spec-cordova/prepare.spec.js:217 | `find(tag)` finds something iff `findall(tag)` is non-empty, and then it is the first of them |
| `XmlTree.FirstIndex` | cordova-lib/spec-cordova/prepare.spec.js:217 | the position of the first child with a name: it has the name and no earlier child does; none exists when no child has it |
| `XmlTree.WithoutTag` | cordova-lib/spec-cordova/prepare.spec.js:276-282 | exactly the children whose name differs from the tag (membership both ways), and as many as the children minus the `findall(tag)` count |
| `XmlTree.Remove` | cordova-lib/spec-cordova/prepare.spec.js:279 | `remove(x)` drops one occurrence of `x` (length one less, multiset minus `x`) and changes nothing when `x` is not a child |
| `XmlTree.RemoveFirstFound` | cordova-lib/spec-cordova/prepare.spec.js:277-280 | removing the first element `findall` returned shortens the `findall` list by its head and keeps every other child |
| `XmlTree.WithoutTagLeavesNone` | cordova-lib/spec-cordova/prepare.spec.js:281-282 | after all children named `tag` are removed, `findall(tag)` is empty |
| `XmlTree.RemoveTagged` | cordova-lib/spec-cordova/prepare.spec.js:276-282 | the loop removing each element `findall(tag)` returned leaves exactly the other children, in order, and the root's name, attributes and text unchanged |
| `XmlTree.FindAllAppend` | cordova-lib/spec-cordova/prepare.spec.js:253-254 | `findall` of appended child lists is the concatenation of the two `findall` results |
| `XmlTree.FindAllUpdate` | cordova-lib/spec-cordova/prepare.spec.js:227-229 | replacing a child by one of the same name keeps every name's count and leaves children of other names identical |
| `ConfigMerge.MergeText` | cordova-lib/spec-cordova/prepare.spec.js:187-201 | the merged text is the source's or the destination's; it is the destination's without `clobber` or when the source text is empty, and the source's otherwise |
| `ConfigMerge.IsOverlayFor` | cordova-lib/spec-cordova/prepare.spec.js:203-221 | a child is a selected wrapper iff the merge has a platform, the child is a `platform` element, and its `name` attribute is that platform |
| `ConfigMerge.HasExactDuplicate` | cordova-lib/spec-cordova/prepare.spec.js:267-294 | a duplicate exists iff some `findall` result for the child's name has an attribute map equal to the child's; a child already in the list always has one |
| `ConfigMerge.MergeAttrs` | cordova-lib/spec-cordova/prepare.spec.js:187-201 | merged keys are the union; a source value wins when `clobber` is set or the key is new; a destination value survives otherwise |
| `ConfigMerge.Merge` | cordova-lib/spec-cordova/prepare.spec.js:187-201 | the merged root keeps the destination name, gets the merged attributes and text per the clobber rules, and keeps every existing child at its position with its name, repeatable children unchanged |
| `ConfigMerge.MergeChildren` | cordova-lib/spec-cordova/prepare.spec.js:203-265 | processing source children never changes the root's name, attributes or text, and only extends the child list (existing positions keep their names; repeatable children are untouched) |
| `ConfigMerge.MergeChild` | cordova-lib/spec-cordova/prepare.spec.js:203-294 | one source child (wrapper, singleton or repeatable) never changes the root fields and only extends the child list as above |
| `ConfigMerge.MergeXml` | cordova-lib/spec-cordova/prepare.spec.js:189 | the in-order loop over the source children computes exactly `Merge` |
| `MergeLaws.MergeChildrenConcat` | cordova-lib/spec-cordova/prepare.spec.js:249-255 | merging children `xs + ys` equals merging `xs`, then `ys` into the result |
| `MergeLaws.OtherPlatformOverlayInert` | cordova-lib/spec-cordova/prepare.spec.js:203-209 | a wrapper for another platform can be removed from any source without changing any merge result |
| `MergeLaws.InertSource` | cordova-lib/spec-cordova/prepare.spec.js:203-209 | a source with no attributes or text, whose children are all wrappers for other platforms (or none), leaves every destination exactly unchanged |
| `MergeLaws.SelectedOverlayFlattens` | cordova-lib/spec-cordova/prepare.spec.js:211-221 | a wrapper among the source's children, for the merged platform, has exactly the effect of its own children placed where it stands; that wrapper itself is not copied |
| `MergeLaws.CountsNeverDrop` | cordova-lib/spec-cordova/prepare.spec.js:249-254 | no merge lowers the number of children with any name |
| `MergeLaws.SingletonsStayUnique` | cordova-lib/spec-cordova/prepare.spec.js:223-247 | a singleton name occurring at most once before any merge occurs at most once after it, and exactly once if it did before |
| `MergeLaws.OtherNamesUntouched` | cordova-lib/spec-cordova/prepare.spec.js:257-265 | names are matched in full: the children named `u` are identical after a merge whose source (including wrappers) has no child named `u` |
| `MergeLaws.RepeatableChildRule` | cordova-lib/spec-cordova/prepare.spec.js:267-294 | a repeatable child leaves the destination unchanged iff an existing child has the same name and an equal attribute map, and is appended as the last child otherwise |
| `MergeLaws.SingletonChildRule` | cordova-lib/spec-cordova/prepare.spec.js:223-247 | a singleton child is merged by the root rules into the first destination child with its name: `find` then returns the merged element, the length and that name's count are unchanged, and every other position keeps its child. With no such child it is appended as the last child |
| `MergeLaws.DuplicateIgnoresContent` | cordova-lib/spec-cordova/prepare.spec.js:267-273 | whether a child counts as a duplicate does not depend on its text or its children |
| `MergeLaws.MergeTextIdempotent` | cordova-lib/spec-cordova/prepare.spec.js:187-201 | applying the text rule twice with the same source gives the same text as once |
| `MergeLaws.MergeAttrsIdempotent` | cordova-lib/spec-cordova/prepare.spec.js:195-201 | applying the attribute rule twice with the same source gives the same map as once |
| `MergeLaws.RepeatableMergeIdempotent` | cordova-lib/spec-cordova/prepare.spec.js:267-273 | merging a source whose children are all repeatable a second time changes nothing: re-declarations are not duplicated |
| `MergeCases.RootMergeWithoutClobber` | cordova-lib/spec-cordova/prepare.spec.js:187-193 | on the fixture, `foo` is added, `id` keeps its value and the root text and children are unchanged |
| `MergeCases.RootMergeWithClobber` | cordova-lib/spec-cordova/prepare.spec.js:195-201 | on the fixture with clobber, `foo` is added, `id` becomes `NOTANID` and the root text becomes `TEXT` |
| `MergeCases.OverlayForOtherPlatformIgnored` | cordova-lib/spec-cordova/prepare.spec.js:203-209 | a `platform name="bar"` wrapper merged for `foo` leaves the fixture identical |
| `MergeCases.OverlayForThisPlatformMerged` | cordova-lib/spec-cordova/prepare.spec.js:211-221 | merged for `bar`, the fixture changes, gains `testElement` with its attribute and text as its last child, and has no `platform` child |
| `MergeCases.AuthorMergedInPlace` | cordova-lib/spec-cordova/prepare.spec.js:223-247 | the new `author` is merged into the fixture's author at its position, with or without clobber |
| `MergeCases.SingletonMergedWithoutClobber` | cordova-lib/spec-cordova/prepare.spec.js:223-234 | exactly one `author`; `testAttrib` added, `href`, `email` and the text kept |
| `MergeCases.SingletonMergedWithClobber` | cordova-lib/spec-cordova/prepare.spec.js:236-247 | exactly one `author`; `testAttrib` added, `href` and text overwritten, `email` kept |
| `MergeCases.RepeatablesAppended` | cordova-lib/spec-cordova/prepare.spec.js:249-255 | two `preference` elements with new `num` attributes raise the count from 2 to 4 |
| `MergeCases.NamespacedElementAppended` | cordova-lib/spec-cordova/prepare.spec.js:257-265 | `find('foo:bar')` gives the appended element with its attribute and text; children named `bar` are untouched |
| `MergeCases.ExactDuplicateNotAppended` | cordova-lib/spec-cordova/prepare.spec.js:267-273 | a `preference` equal in attributes to an existing one leaves the fixture identical (count 2) |
| `MergeCases.PartialDuplicateAppended` | cordova-lib/spec-cordova/prepare.spec.js:275-294 | with every `access` removed, `access origin="*" launch-external="yes"` gives count 1, and `access origin="*"` merged after it gives count 2 |
| `Prepare.RunPrepare` | cordova-lib/spec-cordova/prepare.spec.js:97-179 | outside a project the run fails with the "not a Cordova-based project" message and no event; with no platforms it fails with the "No platforms added…" message and no event; otherwise it succeeds, its trace has two hooks plus three events per target, starting with `before_prepare` and ending with `after_prepare`, both with the targets' payload |
| `Prepare.Targets` | cordova-lib/spec-cordova/prepare.spec.js:149-162 | `prepare(p)` targets exactly `[p]`; `prepare()` targets every listed platform, so never none when some are listed |
| `Prepare.WwwPath` | cordova-lib/spec-cordova/prepare.spec.js:36 | the path is the project root, then `/platforms/`, then the platform id, then `/www` |
| `Prepare.WwwPaths` | cordova-lib/spec-cordova/prepare.spec.js:35-36 | one path per platform, in order, each `<root>/platforms/<platform>/www` |
| `Prepare.HookPayload` | cordova-lib/spec-cordova/prepare.spec.js:151-158 | the hooks' data object is not verbose, has no options, carries the platforms, and as `paths[i]` the www directory of `platforms[i]` |
| `Prepare.PlatformSteps` | cordova-lib/spec-cordova/prepare.spec.js:134-143 | three events for each platform prepared (their positions and kinds are `Prepare.PlatformStepsAt`) |
| `Prepare.OutsideProjectFails` | cordova-lib/spec-cordova/prepare.spec.js:98-106 | outside a project the run fails with "Current working directory is not a Cordova-based project." and produces no event |
| `Prepare.NoPlatformsFails` | cordova-lib/spec-cordova/prepare.spec.js:107-114 | with no platforms the run fails with the "No platforms added…" message and fires no hook |
| `Prepare.SucceedsIff` | cordova-lib/spec-cordova/prepare.spec.js:165-178 | a run succeeds iff it starts inside a project listing a platform; a failed run fires neither `before_prepare` nor `after_prepare` |
| `Prepare.PlatformStepsAt` | cordova-lib/spec-cordova/prepare.spec.js:135-143 | the per-platform part is three events per platform, in order: `update_www`, `update_project`, `plugman.prepare` |
| `Prepare.SuccessfulTrace` | cordova-lib/spec-cordova/prepare.spec.js:149-162 | a successful run is `before_prepare`, the per-platform events for each target, then `after_prepare`, both hooks with the targets' payload |
| `Prepare.PayloadPaths` | cordova-lib/spec-cordova/prepare.spec.js:35-36 | the payload is not verbose, has no options, carries the platforms, and `paths[i]` is `<root>/platforms/<platforms[i]>/www` |
| `Prepare.PluginPrepareAfterUpdateProject` | cordova-lib/spec-cordova/prepare.spec.js:134-143 | hooks fire only first and last, and every platform's `plugman.prepare` follows its `update_project` |
| `Prepare.PrepareAllFiresBeforeHook` | cordova-lib/spec-cordova/prepare.spec.js:149-155 | `prepare()` passes all listed platforms and their www paths to `before_prepare` |
| `Prepare.PrepareAndroidFiresAfterHook` | cordova-lib/spec-cordova/prepare.spec.js:156-162 | `prepare('android')` passes `['android']` and `/some/path/platforms/android/www` to `after_prepare` |

## Left out

- XML parsing and serialising (`et.XML`, `et.tostring`, `xmlHelpers.parseElementtreeSync`) are library code. The model works on built trees. `et.tostring(a) == et.tostring(b)` is read as equality of trees.
- Namespace URIs and `xmlns` handling: qualified names such as `foo:bar` are opaque strings.
- The text that follows each element in the document (elementtree's `tail`) is not part of `Element`.
- The file-system effects of prepare (`shell.cp`, `shell.mkdir`, `ConfigParser.write`, loading and saving `PlatformJson`) are I/O that the tests stub out.
- `plugman.prepare`, `lazy_load.based_on_config` and the platform project's `update_www` and `update_project` are external subsystems. Each appears only as an event in the trace. `lazy_load` does not appear at all.
- The per-platform configuration merge inside prepare is not linked to `Merge`: the orchestrator tests replace `_mergeXml` with a spy.
- A collaborator that fails part-way is not modelled, because every collaborator in the tests succeeds. So the model says nothing about how such a failure propagates.
- The Q promise chain and the Jasmine spies: the run is a sequential function.
- Hook-script discovery and execution (`HooksRunner.fire`): only the event name and payload are kept.
- The test at prepare.spec.js:125-133 checks `parsers[p]`, which is never populated, so there is nothing in it to model.
- `Prepare.WwwPath` joins with `/` and does not normalise the way `path.join` does (duplicate or trailing separators).
- MergeLaws.RepeatableMergeIdempotent: stated only for sources whose children are all repeatable. A source with a singleton need not be idempotent: an `author` appended with a platform wrapper inside it gains that wrapper's children on the second merge.
- Wrappers nested inside an appended element are copied as they are. Only the children of the element being merged, and of a selected wrapper, are checked for wrappers. A wrapper inside a singleton that is merged into an existing one is unpacked, because that merge applies the same rules.
- `XmlTree.Remove` drops the first child equal in value to `x`, whereas elementtree's `remove` drops that very object. In the loop at prepare.spec.js:277-280 the two agree. The element `findall` returns next is always the first remaining child with that name.
