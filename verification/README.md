# capo — a Dafny model of stage tracing, COPY resolution and content selection

capo builds an SBOM for the builder content of a multi-stage Containerfile. It
parses the Containerfile into stages and builder-type COPY instructions. It traces
every path the final stage copies back to the stage or image it really came from,
and pins each base image and copied-from image to a digest. It then picks from
each image the content that the copies selected, both the committed builder layers
and the last intermediate layer that buildah left in the store.

This project models that logic as pure Dafny functions over plain data:

- The imagebuilder parser, `${VAR}` expansion, the container store and the
  filesystem become inputs. These are an expander function, a layer map, an
  image list, an archive entry sequence, a file-type function and a resolver
  function.
- The tree of the current revision (`pkg/scan.go`, `pkg/containerfile/`,
  `pkg/content.go`) and the earlier revision still in the tree (`pkg/mask.go`,
  `pkg/includer/`, `pkg/content/`, `pkg/containerfile.go`) are modelled side by
  side, one module per source file.

Modules:

- `Wrappers`: `Option` and `Result`. In the draft parser, `None` stands for a
  Go runtime panic.
- `Paths`: Go's `path/filepath` `Clean`, `Join`, `Split` and `Dir` on `/`-separated
  strings, with the lexical properties the COPY destination rules rely on.
- `Glob`: `filepath.Match` restricted to `*` and `?`.
- `Inclusion`: the two `includes` tests, prefix-or-glob (current) and prefix
  only (earlier).
- `Containerfile`: `Parse` with target selection, the alias→pullspec map, the
  per-stage WORKDIR state machine and `parseCopy` destination resolution.
- `Scan`: `traceSource`, `getPackageSources`, `resolvePullspecs` and
  `getPackageMetadata`.
- `Layers`: the intermediate-layer search (candidates by parent walk, deepest
  wins). `pkg/content.go` and `pkg/content/intermediate.go` share this search,
  line for line.
- `Archive`: the entry filter and extraction effects of `saveDiff`.
- `Content`: `saveDiff` and `getIntermediateContent` of the current revision.
- `EarlierContent`: `pkg/content/intermediate.go` and `pkg/content/content.go`.
- `DependencyTree`: the copy dependency tree that `pkg/mask.go` and
  `pkg/includer/builder.go` both build, with the root, child and collect rules.
- `CopyMasks`: `pkg/mask.go`.
- `Includers`: `pkg/includer/builder.go` and `pkg/includer/external.go`.
- `DraftContainerfile`: the draft extractor in `pkg/containerfile.go`.

## Model

| member | source | states |
|---|---|---|
| Paths.Absolute | pkg/content.go:73-75 | the result is rooted; a rooted path is kept, a relative one gets a leading `/` |
| Paths.CleanIdempotent | pkg/containerfile/containerfile.go:241-248 | cleaning a cleaned path changes nothing |
| Paths.CleanNoTrailingSeparator | pkg/containerfile/containerfile.go:241-248 | a cleaned path ends in `/` only when it is the root itself |
| Paths.CleanKeepsLastName | pkg/containerfile/containerfile.go:238-248 | when the last element is a real name, cleaning keeps that name as the last element |
| Paths.CleanAbs | pkg/containerfile/containerfile.go:241-248 | cleaning keeps a path rooted exactly when it was rooted |
| Paths.JoinAbs | pkg/containerfile/containerfile.go:183 | joining onto a rooted workdir gives a rooted path |
| Paths.CleanTrailingSeparator | pkg/containerfile/containerfile.go:241-248 | a trailing `/` makes no difference to the cleaned path |
| Paths.JoinKeepsLastName | pkg/containerfile/containerfile.go:248 | joining keeps the last name of a destination that names a file |
| Glob.MatchLiteral | pkg/content.go:78 | a pattern without wildcards matches exactly the equal string |
| Glob.MatchKeepsDepth | pkg/content.go:78 | a match never crosses a `/`: pattern and name have the same number of separators |
| Glob.StarMatchesOneElement | pkg/content.go:78 | `*` matches exactly the names that contain no `/` |
| Inclusion.Includes | pkg/content.go:72-84 | true iff some source glob-matches the rooted path or is a string prefix of it; no sources include nothing |
| Inclusion.IncludesPrefix | pkg/content/content.go:88-100 | true iff some source is a string prefix of the rooted path |
| Inclusion.PrefixIncluded | pkg/content.go:77-83 | whatever the prefix-only test includes, the current glob-or-prefix test includes too |
| Inclusion.RelativeIsRooted | pkg/content.go:73-75 | a relative path is included exactly when the same path with a leading `/` is |
| Inclusion.RootIncludesAll | pkg/mask.go:80-91 | a source `/` includes every path under both tests |
| Inclusion.PatternWidens | pkg/content.go:77-83 | `/bin/*` includes `/bin/sh` by glob although it is no prefix of it |
| Inclusion.PrefixIsTextual | pkg/mask.go:80-91 | source `/app` includes `app/file.txt` and source `/app/` does not include `ap` |
| Containerfile.FromFlagValue | pkg/containerfile/containerfile.go:209-218 | none iff no flag starts with `--from=`; otherwise the value of the first such flag |
| Containerfile.NextWorkdir | pkg/containerfile/containerfile.go:172-184 | a rooted WORKDIR replaces the workdir; a relative one fails with the ambiguous-path error iff no workdir is set, else cleans to workdir/path; a success is always rooted |
| Containerfile.ResolveDestination | pkg/containerfile/containerfile.go:232-250 | a rooted destination is kept; a relative one fails iff the workdir is empty; otherwise it is workdir/dest cleaned, with a `/` appended when its last element is empty, `.` or `..` and the cleaned path is not the root; it ends in `/` exactly in that case or at the root |
| Containerfile.ParseCopy | pkg/containerfile/containerfile.go:208-266 | no `--from=` gives no copy; a relative last argument fails iff no workdir is set; otherwise from is the expanded first flag value, sources all arguments but the last, the destination is rooted, is the last argument when that is rooted and otherwise cleans to workdir/argument and ends in `/` iff the argument names a directory, and the kind is builder iff from names a stage seen so far |
| Containerfile.GetBuilderCopiesInStage | pkg/containerfile/containerfile.go:160-199 | one copy per COPY with a `--from=` flag, each typed by the stage names seen so far; every failure is the ambiguous-path error |
| Containerfile.StageCopyAt | pkg/containerfile/containerfile.go:160-199 | a stage's copies follow its COPY instructions in order: the COPY at position `k` with a `--from=` flag yields the copy after those of the earlier `--from=` copies, parsed by ParseCopy under the WORKDIR the stage's earlier instructions set up from none |
| Containerfile.WorkdirAfter | pkg/containerfile/containerfile.go:172-184 | the WORKDIR after a list of instructions: unchanged without WORKDIR instructions, valid (unset or rooted), and unset only if it started unset |
| Containerfile.CopiesFromAppend | pkg/containerfile/containerfile.go:160-199 | the copies of `a + b` fail with the first failure of `a`; otherwise they are the copies of `a` followed by those of `b` parsed under the WORKDIR that `a` leaves, or `b`'s failure |
| Containerfile.CopyAt | pkg/containerfile/containerfile.go:170-194 | the COPY at position `k` with a `--from=` flag yields the copy at the position counted by the `--from=` copies before it, parsed by ParseCopy under the WORKDIR the instructions before it leave |
| Containerfile.RelativeDestinationNeedsWorkdir | pkg/containerfile/containerfile.go:232-236 | a builder COPY with a relative destination before any WORKDIR makes the stage fail |
| Containerfile.RelativeWorkdirFirstFails | pkg/containerfile/containerfile.go:172-181 | a relative WORKDIR before any rooted one makes the stage fail |
| Containerfile.MapAliasesToPullspecs | pkg/containerfile/containerfile.go:128-142 | keys are exactly the names of all stages but the last; a name maps to the expanded FROM of the last stage carrying it |
| Containerfile.ThroughTarget | pkg/containerfile/containerfile.go:84-90 | none iff no stage has the target name; otherwise the stages up to and including the first one with that name |
| Containerfile.Parse | pkg/containerfile/containerfile.go:63-114 | target-not-found iff a non-empty target names no stage; success iff every selected stage's copies parse, and then one stage per selected stage carrying exactly the copies its own instructions yield from an unset WORKDIR |
| Containerfile.ParsedAliases | pkg/containerfile/containerfile.go:95-111 | only the last parsed stage is relabelled as the final stage `""`; the others keep their names |
| Containerfile.ParsedPullspecs | pkg/containerfile/containerfile.go:92-108 | a non-final stage gets the expanded FROM of the last stage with its name; the final stage gets `""` unless an earlier stage is named `""` |
| Containerfile.ParsedCopies | pkg/containerfile/containerfile.go:252-255 | every parsed copy has a rooted destination and is builder-typed iff its from names a stage up to its own |
| Scan.AliasIndex | pkg/scan.go:187-194 | the alias map covers exactly the non-final aliases, each pointing at the last stage with that alias |
| Scan.Trace | pkg/scan.go:266-292 | every attribution names an earlier-or-current builder or a known external image, and the current stage is credited at most once, last, with the traced path itself |
| Scan.TraceWalks | pkg/scan.go:266-292 | an attribution is in the trace of a path in a stage iff some walk back from that point, each step through a copy whose destination starts with the current path to one of its sources in the stage it names, ends in it: the last point's own path when that is a directory or nothing fed it, or a source of a feeding copy straight from an image |
| Scan.FileChainExample | pkg/scan_test.go:125-166 | a file copied from builder1 to builder2 to the final stage is credited to builder1 alone, and builder2 still gets an empty package source |
| Scan.OwnEntry | pkg/scan.go:272-291 | the traced stage's own entry is the source exactly when it ends in `/` or no copy's destination starts with it |
| Scan.OwnMembers | pkg/scan.go:290 | a stage's accumulated list holds exactly the paths attributed to it |
| Scan.OwnAppend | pkg/scan.go:290 | the accumulator only grows by appending, in log order, without deduplication |
| Scan.ImageSourcesVerbatim | pkg/scan.go:275-290 | a feeding copy straight from an image contributes one attribution to that image per source, verbatim and in source order |
| Scan.RepeatedSourceCreditedTwice | pkg/scan.go:275-290 | a source an image copy lists twice is attributed twice: the log is never deduplicated |
| Scan.TraceAgrees | pkg/scan.go:275-282 | whenever the Go walk does not dereference a nil stage, it yields exactly the corrected trace |
| Scan.NilStageCounterexample | pkg/scan.go:279 | a final stage copying `/etc/` from a builder that copied `/etc/file` straight from an image makes the Go walk dereference a nil stage; the corrected trace credits the image and the builder |
| Scan.PackageLog | pkg/scan.go:199-216 | every attribution of the final stage's copies names a builder stage or an external image that some copy reads from |
| Scan.BuilderSources | pkg/scan.go:218-239 | success iff every non-final stage's pullspec is resolved; then one source per non-final stage in stage order, carrying its accumulated paths; a failure names an unresolved pullspec |
| Scan.ExternalSources | pkg/scan.go:241-255 | success iff every external image is resolved; then one source per external attribution, with alias `""` and that single path |
| Scan.GetPackageSources | pkg/scan.go:182-258 | success iff all stage pullspecs and traced external images are resolved; then the builder sources, one per non-final stage, followed by one external source per external attribution |
| Scan.ExternalCopyAttributed | pkg/scan.go:205-214 | every source of a final-stage copy from a non-stage is attributed to that image |
| Scan.BuilderCopyAttributed | pkg/scan.go:205-206 | a final-stage copy source that is a directory or that nothing feeds is credited to the named builder stage |
| Scan.BuilderCopyScanned | pkg/scan.go:218-233 | such a source appears in the package source of that builder stage, which carries the stage's alias |
| Scan.ExternalCopyScanned | pkg/scan.go:241-255 | a final-stage copy from an image yields a package source with alias `""`, the image, its pinned digest and that one path |
| Scan.SourcesConserved | pkg/scan.go:182-258 | the package sources together hold exactly the traced paths, as a multiset |
| Scan.ResolveCopies | pkg/scan.go:136-147 | the copies of a stage succeed iff every non-builder from resolves; the map then gains exactly those keys, each mapped to its resolution |
| Scan.ResolveStages | pkg/scan.go:126-148 | succeeds iff every base pullspec and non-builder from of the given stages resolves; the map then holds exactly those keys |
| Scan.ResolvePullspecsAsWritten | pkg/scan.go:123-151 | the Go map covers the base pullspecs and non-builder froms of the non-final stages only |
| Scan.ResolvePullspecs | pkg/scan.go:123-151 | the corrected map also covers the images the final stage copies from directly |
| Scan.ResolvedSourcesSucceed | pkg/scan.go:243-247 | with the corrected map, assembling the package sources never fails for a missing pullspec |
| Scan.FinalExternalCounterexample | pkg/scan.go:126 | a single final stage copying from an image: the Go map is empty and assembly fails, the corrected map pins the image and assembly succeeds |
| Scan.ParsedKindsConsistent | pkg/containerfile/containerfile.go:252-255 | a parsed Containerfile's copy kinds agree with the alias map the tracer builds |
| Scan.TagAll | pkg/scan.go:355-375 | one item per package, in order, each tagged with the origin type, pinned pullspec and alias |
| Scan.GetPackageMetadata | pkg/scan.go:348-378 | all builder packages tagged "builder", then all intermediate ones tagged "intermediate"; the length is the sum |
| Scan.MetadataUntags | pkg/scan.go:353-377 | removing the tags gives back the builder packages followed by the intermediate ones |
| Layers.WalkReaches | pkg/content.go:236-249 | the parent walk stops at the builder layer after d hops iff the chain reaches it in d hops without passing `""` |
| Layers.ExamineImageCandidate | pkg/content.go:219-250 | an image is kept iff it is unnamed, its top layer is not the builder layer, and its parent chain reaches the builder layer |
| Layers.Candidates | pkg/content.go:211-253 | the candidates are exactly the top layers of the candidate images in store order; a storage error fails the whole search; a failed image listing is the storage error `Layers.ErrListImages` of the content functions that call it |
| Layers.CandidateDepth | pkg/content.go:266-281 | every candidate lies at least one hop above the builder layer |
| Layers.Depths | pkg/content.go:269-281 | one depth per candidate: the number of hops of its parent walk |
| Layers.Deepest | pkg/content.go:265-287 | the maximum depth, at the first index reaching it; none when every depth is 0 |
| Layers.LastIntermediateChoice | pkg/content.go:255-290 | none iff there are no candidates; otherwise a candidate at least as deep as every other and strictly deeper than every earlier one |
| Archive.Materialise | pkg/content.go:329-351 | a directory entry creates its directory, a regular entry its parent directories and then its bytes, other entries nothing |
| Archive.Extract | pkg/content.go:312-327 | the included names are exactly the accepted entry names; every effect belongs to an accepted entry |
| Archive.ExtractAppend | pkg/content.go:314-352 | extraction is a fold over the stream: a concatenated stream extracts to the concatenated results |
| Archive.RejectedLeavesNoTrace | pkg/content.go:323-325 | a rejected entry changes neither the included list nor the effects |
| Archive.ExtractCounts | pkg/content.go:327 | the included list has one name per accepted entry |
| Content.SaveDiff | pkg/content.go:292-355 | a header read error fails with an I/O error; otherwise the included names are exactly those the mask includes |
| Content.SaveDiffAsWritten | pkg/content.go:308-320 | as written, no stream fails: on a read error the files already extracted stay and the included list is empty |
| Content.GetIntermediateContentAsWritten | pkg/content.go:184-209 | with saveDiff as written, the same outcome as the corrected composition except where that fails with an I/O error, which becomes a success with nothing included |
| Content.ReadErrorSwallowed | pkg/content.go:308-320 | an archive with one file and then a bad header: as written, an empty success after two effects; intended, an I/O error |
| Content.GetIntermediateContent | pkg/content.go:184-215 | a missing builder layer is a storage error; with the builder layer found, a failed image listing is a storage error; content is only produced when an intermediate layer exists, and every included path is included by the mask |
| Content.NoIntermediateNoDiff | pkg/content.go:195-201 | with no candidate layer the result is empty and no diff is taken |
| Content.IntermediateDiffUsed | pkg/content.go:203-208 | otherwise the diff against the chosen candidate is what gets filtered |
| EarlierContent.SaveDiff | pkg/content/intermediate.go:144-198 | a read error fails; otherwise the included names are exactly those the includer includes |
| EarlierContent.GetIntermediateContent | pkg/content/intermediate.go:26-57 | a missing builder layer is an error; with the builder layer found, a failed image listing is an error; no intermediate layer gives an empty result |
| EarlierContent.NoIntermediateNoDiff | pkg/content/intermediate.go:37-43 | with no candidate layer the result is empty and no diff is taken |
| EarlierContent.Place | pkg/content/content.go:127-139 | as intended, a directory or file source is copied to its own path below the content directory |
| EarlierContent.CopyEach | pkg/content/content.go:114-141 | fails iff some stat fails, naming the first such source; otherwise the included list equals the reference filter of present sources, in source order, and the effects are those sources' placements in the same order |
| EarlierContent.ExistingCons | pkg/content/content.go:114-141 | the reference filter, defined from the last source back, agrees with the loop's front-to-back order: the first source leads the list exactly when it is present |
| EarlierContent.CopySources | pkg/content/content.go:114-141 | the loop's outcome: fails iff a stat fails, naming the first such source; otherwise exactly the present sources in source order, each included source is one of the sources and present, every present source is included, and every copy effect comes from placing one of the sources |
| EarlierContent.GetImageContent | pkg/content/content.go:102-144 | a mount failure fails; every copy lands at its own path below the content directory |
| EarlierContent.GetImageContentAsWritten | pkg/content/content.go:102-144 | as written, the included list is unchanged from the intended version |
| EarlierContent.DirectoryCopiedToContentRoot | pkg/content/content.go:127-134 | as written, a directory source is copied into the content root itself rather than to its own path |
| EarlierContent.SameIncluded | pkg/content/content.go:140 | the misplaced copy does not change which sources are reported |
| EarlierContent.AsWrittenCopiesTree | pkg/content/content.go:129-134 | as written, every directory source yields a tree copy into the content root |
| EarlierContent.GetExternalContent | pkg/content/content.go:66-86 | an unknown pullspec fails naming it; otherwise the image content of its mount |
| EarlierContent.GetBuilderContent | pkg/content/content.go:33-64 | an unknown pullspec fails naming it; otherwise the intermediate content and the committed image content |
| DependencyTree.ChildrenSound | pkg/mask.go:111-129 | every child is the node of a copy in an earlier builder whose destination starts with one of the parent's sources |
| DependencyTree.ChildrenComplete | pkg/mask.go:111-129 | every such copy becomes a child |
| DependencyTree.CollectSound | pkg/mask.go:133-138 | every collected visit ends a chain of feeding copies that starts at the node |
| DependencyTree.CollectComplete | pkg/mask.go:133-138 | every chain that starts at the node is collected |
| DependencyTree.Roots | pkg/mask.go:48-62 | the roots are exactly the copies into the final stage |
| DependencyTree.SourcesFor | pkg/mask.go:134 | a builder's list holds exactly the sources of the visits of that builder |
| DependencyTree.BuildMask | pkg/mask.go:64-72 | one entry per visited builder, holding that builder's collected sources |
| DependencyTree.VisitsMembers | pkg/mask.go:48-67 | the visits are exactly the ends of copy chains that start in the final stage |
| DependencyTree.MaskMembers | pkg/mask.go:41-75 | a path is in a builder's mask iff a copy chain from the final stage ends in a copy out of that builder with that source |
| CopyMasks.NewCopyMasks | pkg/mask.go:41-75 | no builders give no masks; otherwise one mask per visited builder alias with its collected sources |
| CopyMasks.GetMask | pkg/mask.go:25-31 | the stored mask for the alias, and a mask with no sources for an unknown one |
| CopyMasks.Includes | pkg/mask.go:80-91 | true iff some source is a prefix of the rooted path |
| CopyMasks.MaskReachable | pkg/mask.go:41-75 | every stage on a chain from the final stage receives the path it hands on |
| Includers.NewBuilderIncluders | pkg/includer/builder.go:41-75 | no stages give no includers; otherwise one includer per visited alias with its collected sources |
| Includers.GetMask | pkg/includer/builder.go:25-31 | the stored includer for the alias, and one with no sources for an unknown alias |
| Includers.IncluderReachable | pkg/includer/builder.go:93-120 | a path is in a builder's includer iff a chain from the final stage ends in a copy out of that builder with that source |
| Includers.AllSources | pkg/includer/external.go:9-11 | the length is the sum of the copies' source counts, and a path is present iff some copy lists it |
| Includers.External | pkg/includer/external.go:7-16 | the external includer lists all sources of all copies; no copies give none |
| Includers.AllSourcesAppend | pkg/includer/external.go:9-11 | the sources are concatenated in copy order |
| Includers.FileChainReachesEveryBuilder | pkg/includer/includer_test.go:108-135 | a file handed from builder1 to builder2 to the final stage is in both builders' includers |
| Includers.DirectoryChainCollectsWriters | pkg/includer/includer_test.go:136-173 | builder1 gets both sources written below the copied directory, builder2 gets the directory |
| Includers.UncopiedContentExcluded | pkg/includer/includer_test.go:174-203 | content that never reaches the final stage is in no includer |
| Includers.ExternalKeepsCopyOrder | pkg/includer/includer_test.go:46-72 | three copies from one image give their sources in copy order |
| DraftContainerfile.AliasPullspecs | pkg/containerfile.go:100-109 | keys are the names of the given stages; a name maps to the raw FROM argument of the last stage carrying it |
| DraftContainerfile.MapAliasesToPullspecs | pkg/containerfile.go:100-109 | panics iff there are no stages or a non-final stage has no FROM argument; otherwise keys are the non-final names, each mapped to its raw FROM argument |
| DraftContainerfile.FromValues | pkg/containerfile.go:118-124 | one value per `--from=` flag, each the flag text without the prefix |
| DraftContainerfile.InstructionCopies | pkg/containerfile.go:112-143 | panics iff a COPY has `--from=` flags and no arguments; otherwise one copy per flag for a COPY and none for anything else, the `k`-th copying from the `k`-th flag value |
| DraftContainerfile.FromValuesOrder | pkg/containerfile.go:118-124 | the `--from=` flag at position `j` gives the value at the position counted by the `--from=` flags before it |
| DraftContainerfile.StageCopies | pkg/containerfile.go:111-147 | panics iff some instruction does; the copies are exactly those the instructions yield, counted per `--from=` flag |
| DraftContainerfile.GetBuilderCopiesInStage | pkg/containerfile.go:111-147 | the same for a stage's instructions |
| DraftContainerfile.StageCopiesAppend | pkg/containerfile.go:112-144 | the copies of concatenated instructions are the concatenated copies |
| DraftContainerfile.OtherInstructionIgnored | pkg/containerfile.go:113-115 | removing a non-COPY instruction leaves the copies unchanged |
| DraftContainerfile.AllCopies | pkg/containerfile.go:82-95 | succeeds iff every stage's copies do, with one list per stage |
| DraftContainerfile.ParseContainerfileStages | pkg/containerfile.go:68-98 | a build error is passed on; a panic iff the map or some stage's copies panic; otherwise one stage per raw stage, the last relabelled final, each with the looked-up pullspec and its copies |
| DraftContainerfile.ParsedPullspecs | pkg/containerfile.go:82-98 | a non-final stage gets its raw FROM argument; the final stage gets `""` unless an earlier stage has its name |
| DraftContainerfile.ParseContainerfile | pkg/containerfile.go:52-66 | a panic iff parsing the stages panics; a build error gives an empty result |
| DraftContainerfile.ParseContainerfileDiscards | pkg/containerfile.go:52-66 | whenever it returns, the result is empty: the parsed stages are never assigned |
| DraftContainerfile.TwoFlagsTwoCopies | pkg/containerfile.go:118-142 | a COPY with two `--from=` flags yields two copies with the same sources and destination |

## Left out

- Scan.Trace: requires every `From` that names a stage to name a strictly earlier one; that is the model's termination measure. Go has no such check. It follows a copy from the stage itself or a later one as well. It returns once the traced paths stop matching destinations, and loops forever only when a path keeps matching around a cycle, for example a stage that copies `/a` from itself into `/a`. Those inputs are outside the model, whether Go terminates on them or not.
- Layers.Candidates: takes the listed images as input. When `store.Images()` fails (pkg/content.go:212-215, pkg/content/intermediate.go:54-57), Content.GetIntermediateContent and EarlierContent.GetIntermediateContent return the listing error before the search starts.
- Containerfile.GetBuilderCopiesInStage: its own contract states typing, count and the error kind. Which WORKDIR each copy sees, each copy's contents and their order are stated by Containerfile.StageCopyAt, Containerfile.CopyAt and Containerfile.CopiesFromAppend.
- Scan.Trace: its own contract states the shape of the log. Which copies are followed and what each walk credits is stated by Scan.TraceWalks.
- Scan.GetPackageSources: the external package sources come in attribution order. Go ranges over a map, so its order is unspecified.
- Scan.GetPackageSources, Scan.ResolvePullspecs and Containerfile.MapAliasesToPullspecs: require a non-empty stage list. Go slices `stages[:len(stages)-1]` and panics on an empty one.
- Containerfile.Parse: requires at least one stage and a COPY with a `--from=` flag to have an argument. Go indexes `args[len(args)-1]` and panics otherwise.
- `resolvePullspec` (pkg/scan.go:155-178) is a resolver parameter. Store lookup and digest rewriting happen in foreign libraries.
- Layers.Walk: a cycle in the layer parents is reported as a separate outcome, where Go would loop forever.
- Filesystem failures are not modelled: `MkdirAll`, `Create`, `io.Copy`, `Close`, `os.CopyFS` and `copyFile`. So is the partial file tree left behind on an error. These are I/O.
- Content.SaveDiff: does not model the `diff.Close()` error that the deferred assignment can return on success, because closing is I/O.
- Tar header decoding and diff streaming: the archive is a sequence of entries with a name, a kind and bytes.
- Glob.Match: models `*` and `?` only, not character classes or escapes.
- The `Sources()` and `GetSources()` accessors (pkg/mask.go:95-97, pkg/includer/builder.go:77-79, pkg/includer/external.go:18-20) are the datatype fields themselves.
- The includer types in pkg/includer do not implement the `Includes` method of the `Includer` interface (pkg/includer/includer.go). The model treats them as the source lists they hold.
- DraftContainerfile.ParseContainerfileStages: takes the outcome of `NewStages` as input. Go overwrites the `ParseDockerfile` error before it is checked, so only that outcome matters.
- imagebuilder parsing, `ProcessWord` `${VAR}` expansion and `ThroughTarget` internals: these are an expander function and a prefix selection.
- Store setup, reexec, `Scan` orchestration, `scanSource` temporary directories, the debug switch, Syft, logging, `cmd/capo`, `internal/sbom` and the build tooling are process and I/O plumbing.
- pkg/content/builder.go is an older copy of `GetBuilderContent` and `copyFile` that does only I/O. It is not part of this model.

## Findings

| source | as written | input that shows it | evidently intended | confidence | as-written member | corrected member |
|---|---|---|---|---|---|---|
| pkg/scan.go:126 | `resolvePullspecs` resolves only the non-final stages, yet `getPackageSources` looks up every image the final stage copies from directly (pkg/scan.go:243-247) | a single final stage `COPY --from=docker.io/library/fedora:latest /usr/bin/oras /usr/bin/oras` | the images the final stage copies from are resolved too | not executed | Scan.FinalExternalCounterexample | Scan.ResolvedSourcesSucceed |
| pkg/content.go:308-320 | the deferred `err = diff.Close()` overwrites the named error, so a tar header read error returns an empty list and a nil error | an archive with one regular file followed by an unreadable header | the read error is reported as an I/O error | not executed | Content.ReadErrorSwallowed | Content.SaveDiff |
| pkg/content/content.go:127-134 | a directory source is copied into the content root instead of to its own path below it | a directory source `/app` with content root `/tmp/content` | the directory lands at `/tmp/content/app`, as pkg/content.go does | not executed | EarlierContent.DirectoryCopiedToContentRoot | EarlierContent.GetImageContent |
| pkg/scan.go:279 | `traceSource` follows every copy whose destination starts with the path, including a copy from an external image, and looks up `aliasToStage[cp.From]`, which is nil for an image | builder `b` copies `/etc/file` from an image into `/etc/`; the final stage copies `/etc/` from `b` | a copy from an image credits the image instead of recursing | not executed | Scan.NilStageCounterexample | Scan.Trace |
