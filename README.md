# radix-acr-cleanup: the retention decision, modelled in Dafny

radix-acr-cleanup periodically removes container-image manifests from an
Azure Container Registry. It only removes manifests that no deployment in the
cluster is running. One cleanup pass works as follows:

- It reads the images of every Radix deployment component in the cluster and
  parses each image string into registry, repository and tag.
- It walks every registry repository that is not whitelisted, and walks that
  repository's manifests oldest first.
- For each manifest, a chain of tests decides whether to delete it. The tests
  look at the pass start time, the manifest's tags, the cluster type
  (`development`, `production`, `playground`) and whether a cluster image
  references the manifest.
- Each deletion increments a prometheus counter cell labelled by cluster type,
  repository and a `tagged` flag. A real `az acr repository delete` command runs
  only when deletion is enabled; otherwise the pass is a dry run.

The model has four modules:

- `Strings` (`strings.dfy`): the parts of Go's `strings` package the core
  uses. `Split` has a one-character separator, and `EqualFold` folds ASCII
  case only. `TakeUntil` and `DropThrough` are first-occurrence reference
  definitions, used to say what the pieces of a split are.
- `Image` (`image.dfy`): `Parse`, written exactly as the Go code splits.
  Lemmas relate it to a first-occurrence definition, its two failure cases,
  a round trip and the source's test vectors.
- `Manifests` (`manifests.dfy`): the manifest record and the two tag
  predicates. `Contains` is a flag-and-break loop. The in-place sort by
  timestamp is a selection sort on an array, proved sorted and a
  permutation.
- `AcrCleanup` (`cleanup.dfy`): the pass.
  - `IsWhitelisted`, a `ManifestExistInCluster` loop and the loops that
    collect the cluster images.
  - `Decide`, the decision chain in the source's order.
  - `RepoDeletions` / `PassDeletions`, which give the deletions of a pass.
  - `Counted` / `Issued`, which give their effect on the counter and on the
    commands run.
  - The class `Cleanup`. Its fields are the processed-repository count, the
    counter vector (a map from label triple to count) and the sequence of
    delete commands run. Its methods follow `deleteImagesBelongingTo` and
    `deleteManifest` loop for loop. Each method is proved to leave exactly
    the state the specification functions give.

Inputs the source obtains by I/O are parameters of the model:

- the clock reading at the start of the pass, as an integer;
- the component image strings of each deployment;
- the repository list;
- each repository's manifest listing, a map from repository name to
  manifests, oldest first; a repository missing from the map has no
  manifests.

The decision chain is modelled as written. The second test
(`main.go:172`) deletes every evaluated manifest that no cluster image
references once untagged deletion is on. It does not re-check that the
manifest is untagged, so a manifest tagged for another cluster type is also
deleted, and counted with `tagged="false"`. `DecideWithUntaggedDeletion` and
`DecideDeletesOtherClusterTypeAsUntagged` state this.

Two features a reader might expect are absent from the code and from the
model:

- The code has no grace period and no untagged-retention quota. Its only
  time guard is "newer than the pass start" (`main.go:162`).
- The tag is the second `:`-piece of the second `/`-segment
  (`image.go:20,29`). It is not the text after the last `:`.

## Model

| member | source | states |
|---|---|---|
| Strings.Split | pkg/image/image.go:14-20 | `strings.Split` with a one-character separator: always at least one piece; `SplitJoin`, `SplitSingle`, `SplitHead` and `SplitSecond` pin the pieces down exactly |
| Strings.SplitJoin | pkg/image/image.go:14 | the pieces of `strings.Split` contain no separator and join back to the input, which fixes what they are |
| Strings.SplitSingle | pkg/image/image.go:15 | a split has one piece exactly when the separator does not occur (the `len(...) == 1` tests) |
| Strings.SplitHead | pkg/image/image.go:19 | the first piece of a split is the text before the first separator |
| Strings.SplitSecond | pkg/image/image.go:20 | when the separator occurs there is a second piece, and it is the text between the first and second separator |
| Strings.HasPrefix | pkg/manifest/manifest.go:47 | `strings.HasPrefix`: holds exactly when the prefix is no longer than the string and equals its leading characters |
| Strings.EqualFold | cmd/acr-cleanup/main.go:203 | `strings.EqualFold` under ASCII folding: equal strings always match; matching strings have the same length and agree on every position where neither character is an upper-case letter |
| Strings.FoldChar | cmd/acr-cleanup/main.go:203 | the case fold behind `EqualFold`: maps A-Z to a-z, leaves every other character unchanged, never yields an upper-case letter |
| Image.Parse | pkg/image/image.go:13-31 | nil whenever there is no `/`; a parsed registry, followed by `/`, is a prefix of the input; `ParseSpec`, `ParseNoneIff` and `ParseRoundTrip` state its full behaviour |
| Image.ParseSpec | pkg/image/image.go:13-31 | `Parse` equals the first-occurrence definition in full: nil without `/` or without `:` in the second segment; otherwise registry = text before the first `/`, repository = the segment up to its first `:`, tag = text between the segment's first and second `:` |
| Image.ParseNoneIff | pkg/image/image.go:14-24 | nil exactly when there is no `/` or the second `/`-segment has no `:` (both directions) |
| Image.ParseFieldsClean | pkg/image/image.go:14-30 | in a parsed reference no field contains `/`, and repository and tag contain no `:` |
| Image.ParseDecomposition | pkg/image/image.go:19-30 | anything after the tag that begins with `:` or `/` (later pieces and segments) is ignored |
| Image.ParseRoundTrip | pkg/image/image.go:13-31 | `Parse(r + "/" + p + ":" + t)` gives back `r`, `p`, `t` whenever `r`, `p`, `t` have no `/` and `p`, `t` have no `:` |
| Image.ParseWithoutTag | pkg/image/image.go:20-24 | `registry/repository` with no `:` parses to nil |
| Image.ParseWithoutSlash | pkg/image/image.go:14-17 | a string without `/` parses to nil |
| Image.ParseExampleRelevant | pkg/image/image_test.go:9-14 | `repo.azurecr.io/some-repo:some-tag` parses to registry `repo.azurecr.io`, repository `some-repo`, tag `some-tag` |
| Image.ParseExamplesIrrelevant | pkg/image/image_test.go:16-22 | `repo.azurecr.io/some-repo` and `some-repo:some-tag` parse to nil |
| Manifests.AnyTagHasPrefix | pkg/manifest/manifest.go:46-52 | the early-return scan over the tags holds exactly when some tag has the prefix |
| Manifests.IsTaggedForCurrentClustertype | pkg/manifest/manifest.go:45-53 | holds exactly when some tag starts with `clusterType + "-"` |
| Manifests.NoneTaggedFor | pkg/manifest/manifest.go:58-64 | the early-return scan over cluster types holds exactly when the manifest is tagged for none of them |
| Manifests.IsNotTaggedForAnyClustertype | pkg/manifest/manifest.go:57-65 | holds exactly when the manifest is tagged for none of the three cluster types of line 42 |
| Manifests.NotTaggedForAnyIff | pkg/manifest/manifest.go:42-65 | spelled out: not tagged for any cluster type exactly when not tagged for `development`, `production` or `playground` |
| Manifests.Contains | pkg/manifest/manifest.go:68-78 | the flag-and-break loop returns true exactly when the tag equals (case-sensitively) some tag of the manifest |
| Manifests.TagPredicatesDependOnTagSetOnly | pkg/manifest/manifest.go:45-78 | manifests with the same set of tags agree on all three predicates, whatever their digests, timestamps, tag order or duplicates |
| Manifests.TagExampleBare | pkg/manifest/manifest_test.go:48 | a manifest tagged only `jl5mh` is tagged for no cluster type |
| Manifests.TagExampleTagged | pkg/manifest/manifest_test.go:49-54 | adding `<clusterType>-jl5mh`, for any of the three cluster types, makes it tagged for that type and no longer tagged for none |
| Manifests.OldestFrom | pkg/manifest/manifest.go:36-38 | finds a position of least timestamp in the unsorted suffix, the selection step of the sort |
| Manifests.SortByTimestamp | pkg/manifest/manifest.go:36-38 | in place, the array ends sorted by non-decreasing timestamp and is a permutation (same multiset, so same length) of its old contents |
| AcrCleanup.IsWhitelisted | cmd/acr-cleanup/main.go:201-209 | holds exactly when some whitelist entry equals the repository ignoring (ASCII) case |
| AcrCleanup.ManifestExistInCluster | cmd/acr-cleanup/main.go:211-224 | the flag loop returns true exactly when some cluster image has the repository (ignoring case) and a tag the manifest contains |
| AcrCleanup.AppendParsedImages | cmd/acr-cleanup/main.go:235-242 | the inner filter loop appends, in order, the parses of the component images that parse |
| AcrCleanup.CollectImagesInCluster | cmd/acr-cleanup/main.go:234-243 | the nested loops yield the parses of all component images, deployment by deployment, unparsable ones dropped |
| AcrCleanup.ParsedImagesMembership | cmd/acr-cleanup/main.go:234-243 | an image is in the cluster list exactly when some component image string parses to it |
| AcrCleanup.ParsedImagesAppend | cmd/acr-cleanup/main.go:234-243 | the list keeps the order of the image strings: the list for a concatenation is the two lists in order |
| AcrCleanup.ParsedImagesLength | cmd/acr-cleanup/main.go:236-239 | unparsable strings are only dropped: never more images than strings, exactly as many when all parse |
| AcrCleanup.Decide | cmd/acr-cleanup/main.go:159-190 | the decision chain: skipped exactly when newer than the start; a deleting verdict means unreferenced; a tagged deletion means untagged deletion is off and the manifest carries a `clusterType-` tag; the `DecideWith*` lemmas give the exact conditions |
| AcrCleanup.DecideSkipsExactlyTheNewer | cmd/acr-cleanup/main.go:160-164 | a manifest is skipped unevaluated exactly when its timestamp is after the start; one stamped at the start is evaluated |
| AcrCleanup.DecideDeletesOnlyOldUnreferenced | cmd/acr-cleanup/main.go:162-190 | on every deleting path the manifest is not newer than the start and no cluster image references it |
| AcrCleanup.DecideWithoutUntaggedDeletion | cmd/acr-cleanup/main.go:169-188 | untagged deletion off: deleted exactly when evaluated, tagged for some cluster type, tagged `clusterType-` and unreferenced; never as untagged |
| AcrCleanup.DecideWithoutUntaggedDeletionKnownType | cmd/acr-cleanup/main.go:169-188 | for a known cluster type: deleted exactly when evaluated, tagged `clusterType-` and unreferenced, and then as tagged; untagged and other-type manifests stay |
| AcrCleanup.DecideWithUntaggedDeletion | cmd/acr-cleanup/main.go:172-187 | untagged deletion on: deleted as untagged exactly when evaluated and unreferenced, whatever the tags; the tagged delete at line 187 is unreachable |
| AcrCleanup.DecideDeletesOtherClusterTypeAsUntagged | cmd/acr-cleanup/main.go:172-183 | a manifest tagged only `production-v3` in a `development` pass is deleted as untagged with the flag on, and retained with it off |
| AcrCleanup.RepoDeletionsMembership | cmd/acr-cleanup/main.go:159-191 | the deletions of a repository are exactly its manifests whose chain ends in a delete, each with the label of its branch |
| AcrCleanup.PassDeletionsMembership | cmd/acr-cleanup/main.go:151-198 | the deletions of a pass are exactly the deleting manifests of listed, non-whitelisted repositories (both directions) |
| AcrCleanup.PassDeletionsAreSafe | cmd/acr-cleanup/main.go:151-190 | nothing a pass deletes is whitelisted, newer than the start, or referenced by a cluster image |
| AcrCleanup.PassDeletionsLabel | cmd/acr-cleanup/main.go:169-187 | every deletion of a pass is untagged when untagged deletion is on and tagged when it is off |
| AcrCleanup.Inc | cmd/acr-cleanup/main.go:375-381 | `Inc` on a counter cell: that cell grows by one, every other cell keeps its value |
| AcrCleanup.CountedAt | cmd/acr-cleanup/main.go:352-356 | after the deletions each counter cell has grown by exactly the number of deletions carrying its labels |
| AcrCleanup.CommandsAt | cmd/acr-cleanup/main.go:337-347 | one delete command per deletion, in order, for that deletion's registry, repository and digest |
| AcrCleanup.CountProcessedBounds | cmd/acr-cleanup/main.go:151-193 | the processed count is at most the number of repositories: all of them if none is whitelisted, none if all are |
| AcrCleanup.WhitelistedUntouched | cmd/acr-cleanup/main.go:151-155 | a whitelisted repository gets no delete command and its counter cells keep their values through the pass |
| AcrCleanup.Cleanup.AddImageDeleted | cmd/acr-cleanup/main.go:379-381 | increments exactly the cell (clusterType, repository, `tagged="true"`) |
| AcrCleanup.Cleanup.AddUntaggedImageDeleted | cmd/acr-cleanup/main.go:375-377 | increments exactly the cell (clusterType, repository, `tagged="false"`) |
| AcrCleanup.Cleanup.DeleteManifest | cmd/acr-cleanup/main.go:336-356 | appends the delete command exactly when `performDelete`, and increments the cell of the deletion's label either way |
| AcrCleanup.Cleanup.DeleteRepositoryImages | cmd/acr-cleanup/main.go:159-191 | the manifest loop leaves the counter and the commands as the repository's deletions, in order, determine |
| AcrCleanup.Cleanup.DeleteRepositories | cmd/acr-cleanup/main.go:151-198 | the repository loop adds the number of non-whitelisted repositories to the processed count, and leaves counter and commands as the pass's deletions determine |
| AcrCleanup.Cleanup.DeleteImagesBelongingTo | cmd/acr-cleanup/main.go:130-198 | a whole pass: processed count = non-whitelisted repositories; counter and commands = the effect of the pass's deletions over the parsed cluster images |

## Left out

- `pkg/delaytick/delaytick.go`, the jittered ticker: goroutines, sleeping and a floating-point random delay.
- `pkg/acr/acr.go`, the `az` CLI calls and JSON decoding: I/O. Its results (repositories, manifest listings) are inputs of the model.
- `manifest.FromStringData`, YAML decoding through a foreign library. Only the sort step of `FromStringDataSorted` is modelled, on decoded manifests.
- `main`, the flag parsing, `maintainImages` with its time-window gate (the `timewindow` package is not part of this model), the Kubernetes client and deployment listing, `listRepositories`, `listManifests`, `getRepositoriesFromStringData` and the prometheus HTTP endpoint: plumbing and I/O.
- Logging, the run-duration message and the progress message every ten repositories: output only, no effect on the state.
- `log.Fatalf` on a failed cluster listing: the model starts from a listing that succeeded.
- `time.Time` is an integer and `time.Now()` the `start` parameter. `After` is strict `>`.
- AcrCleanup.IsWhitelisted: case folding is ASCII only, weaker than Go's Unicode `strings.EqualFold`. The same holds for AcrCleanup.ManifestExistInCluster.
- AcrCleanup.Cleanup.DeleteManifest: the outcome of the delete command is not modelled. A failing command is logged and changes nothing else, so the model records the command as issued.
- Manifests.SortByTimestamp: `sort.Slice` is not stable and the source does not fix the order of equal timestamps, so neither does the model.
- `processedRepositories` is a local variable in the source. In the model it is a field that the pass resets to zero.
- The counter is a map from label triple to a natural number. Prometheus counters are floats, but only integer increments are made.
