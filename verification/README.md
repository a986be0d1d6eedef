# Verification of the jentic-one tooling cores

This project models the parts of jentic-one whose correctness rests on more than one function: rewrites that
must keep a meaning, files that several processes change, incremental records that must agree with a full
recompute, and small text algorithms with exact promises. Each model follows the code's branches, constants
and error cases; properties are stated for all inputs, or for all runs of a state machine, and proved with
Dafny 4.11. `dafny verify dfyconfig.toml` checks everything.

| file | models |
|---|---|
| `Prelude.dfy`, `Text.dfy` | shared vocabulary: options, mutators and their fold; `strings.Index`, `strings.ReplaceAll`, `strings.TrimSpace` |
| `Sorting.dfy` | a stable sort by any total order |
| `Json.dfy`, `NullableUnions.dfy` | a JSON Schema 2020-12 validator, and the nullable-union collapse of the OpenAPI export |
| `ConfigMerge.dfy` | the ordered in-place merge that saves the client config over a document with unknown fields |
| `Names.dfy` | the names of identities, environments and contexts, and the coercion of any string to one |
| `LockedFile.dfy` | lock, reload, mutate, temporary file, rename, as steps of any number of processes that may crash |
| `AgentState.dfy` | adoption of the legacy agent record into its own file, under two locks |
| `Glob.dfy`, `GlobExact.dfy`, `CiMarkers.dfy` | globs compiled to regular expressions, and the CI markers that let a job be skipped |
| `CodexToml.dfy` | the managed block spliced into a Codex config, and reading it back |
| `TokenCache.dfy` | token files shared without a lock, and one mint in flight per credential and process |
| `SkillInstall.dfy`, `SkillRuns.dfy` | one apply, dry run, prune or removal of an installed skill, and its life over releases with interruptions |
| `SecretsBaseline.dfy` | the slim secrets baseline, its commit hook and its check |
| `RetryTransport.dfy` | the retry loop of the SDK transport against an adversary |
| `PathParams.dfy` | path-parameter substitution in the request URL |
| `LocalAgent.dfy` | shell quoting read back by the shell's rules, and the chain of ancestors |
| `ImageRef.dfy`, `ComposeImage.dfy` | image references and release tags, and the compose file moved to a release |

Where the code changes a slice, a counter, a file or a directory step by step, the model is a method or a class
whose contract ties the new state to a function of the old one; the theorems are about that function. Processes
that interleave are state machines with a step relation, and theorems about every prefix of every run.

## Where the code and its documentation differ

The models follow the code. Nearly every difference is a lemma, most of them an exact condition.

- "No constraint is lost" (tools/openapi_export.py:122-125): a keyword the parent also carries hides the
  branch's, which changes the meaning unless the parent's is as tight (`SharedBoundKeepsMeaningExactly`; in
  general `FoldKeepsMeaningExactly`), and a surviving `enum` or `const` makes null invalid
  (`FoldKeepsMeaningAroundNull`). A node with two qualifying unions is half collapsed, so a second run does more
  (`CollapseIsIdempotentExactly`).
- "A keyword already present on the parent wins" (tools/openapi_export.py:123-125), but its `type` is overwritten
  (`ParentTypeKeepsMeaningExactly`).
- Clearing an omit-when-empty config field is lost on save (`SavedConfigReadsBackExactly`), and an entry named
  like a section is pruned like one (`UnknownFieldSurvivesExactly`).
- "Idempotent on names that already satisfy ValidName" (cli/client/config/writer.go:40-41): a valid name that ends
  in a hyphen is changed, every other valid name is kept (`ValidNameIsKeptExactly`).
- An unlocked `LoadAgentState` can miss a record that exists throughout (`UnlockedReadExactly`).
- `**` "spans directories" (tools/ci_pass_markers.py:75-80), but as the last segment it covers at least one segment
  (`CompiledGlobMatchesBySegment`), and inside a segment it crosses slashes, or swallows the slash after it: `a**/b`
  matches `ab` (`PartialDoubleStarCrossesSlash`, `PartialDoubleStarDropsSlash`). A glob without a whole `**` segment is
  matched by its segments on every newline-free path exactly when it has no double star, or names a newline
  (`AgreesEverywhereExactly`); beside whole ones, agreement holds if all are whole, and can hold otherwise
  (`HiddenPartialAgrees`, as for `**/**a`).
- "Trusted refs are the run's own ref and the default branch" (tools/ci_pass_markers.py:13-14), but the code trusts a
  pull request's base branch too (`ReadableRefsAreTrusted`).
- Codex arguments that are empty or hold a comma and a space do not read back (`WrittenEntryReadsBackExactly`).
- The token file is shared by all base URLs of a pair, the flight is not (`CacheRespectsBaseExactly`).
- Pruning "cannot strand the old file" (cli/internal/skillgen/apply.go:151-155), but a forced apply over a file
  that has no sidecar and already matches the release writes none, and its references are found by no later
  release (`ApplyStrandsExactly`). An apply cut short before the sidecar leaves files astray too, and forcing it again
  mends an upgrade but not a first install (`CutApplyIsMendedExactly`).
- "A body that cannot be made replayable gets exactly one attempt" (cli/client/transport.go:64-66): `bufferBody`
  either makes the body replayable or fails, and then nothing is sent (`RoundTrip`). A 5xx backoff that is cancelled
  causes one more send.
- `AncestorChain` promises home first and nil above it; for the home itself it lists every directory above home
  (`ChainStartsAtHomeExactly`).
- An empty `image:` value is not refused by the rewrite; the line written then need not read back
  (`RewrittenReadsBackExactly`).

## Model

| member | source | states |
|---|---|---|
| `NullableUnions.Collapser.Walk` | tools/openapi_export.py:129-149 | the in-place walk returns exactly the collapsed tree and adds to the counter the number of unions folded anywhere below |
| `NullableUnions.Collapser.FoldNode` | tools/openapi_export.py:138-147 | of `anyOf` and `oneOf` the first that qualifies is folded and the loop stops; the counter moves by one exactly then |
| `NullableUnions.FoldsExactly` | tools/openapi_export.py:95-110 | a node folds if and only if its `anyOf` or `oneOf` is an array of two or more members, all but one of them objects of type "null" and that one an object of one other type without `allOf`, `anyOf`, `oneOf` or `$ref` |
| `NullableUnions.FoldedNodeExactly` | tools/openapi_export.py:138-147 | keyword by keyword, a folded node holds the type array, what the parent had beside the union, what only the branch had, and nothing else |
| `NullableUnions.SetDefaults` | tools/openapi_export.py:143-144 | the branch's keywords move up and a keyword the parent already has wins |
| `NullableUnions.FoldKeepsVerdictExactly` | tools/openapi_export.py:138-146 | whatever stands beside the union, a fold keeps the verdict on an instance other than null if and only if what it loses (the parent's own type, each branch keyword the parent shares, each side's `additionalProperties` with its own properties) accepts wherever the folded node does, and the `additionalProperties` of the folded node accepts wherever the node did |
| `NullableUnions.FoldKeepsMeaningExactly` | tools/openapi_export.py:112-126 | one fold keeps the verdict on every instance if and only if the condition above holds of every instance other than null, and the union and the parent's type accept null just when the visible branch keywords do or the rest of the parent rejects it; nothing is assumed of the parent |
| `NullableUnions.FoldKeepsMeaningAroundNull` | tools/openapi_export.py:105-108 | beside annotations and bare null members the fold keeps the meaning if and only if the union names null once and the branch's `enum` and `const` name null, or neither: a surviving `enum` without null is the failing case |
| `NullableUnions.CollapseKeepsMeaning` | tools/openapi_export.py:112-151 | for every safe document, every safe schema in it at any depth and every instance: the collapsed schema, with its references read in the collapsed document, accepts what the original accepted |
| `NullableUnions.PublishedSchemasKeepMeaning` | tools/openapi_export.py:154-169 | the published artefact has the placeholder servers, and the same component schemas under the same names, each accepting what it accepted |
| `NullableUnions.SharedBoundKeepsMeaningExactly` | tools/openapi_export.py:143-144 | a bound shared by parent and branch (`maximum`, `minimum`, and those on length and items): collapsing keeps the meaning if and only if the parent's bound is at least as tight as the branch's |
| `NullableUnions.SharedKeywordIsLost` | tools/openapi_export.py:143-144 | the failing half by instance: for all limits own < outer, every string between them is rejected before the collapse and accepted after it |
| `NullableUnions.ParentTypeKeepsMeaningExactly` | tools/openapi_export.py:142-142 | a parent with a type of its own, of any form, beside a union over any other type: collapsing keeps the meaning if and only if the parent's type admits null and every instance of the branch's type |
| `NullableUnions.ParentTypeIsLost` | tools/openapi_export.py:142-142 | the failing half by instance: whatever the branch's type admits and the parent's rejects is rejected before the collapse and accepted after it |
| `NullableUnions.CountsWhatChanges` | tools/openapi_export.py:145-151 | the count is zero exactly when the walk changes nothing |
| `NullableUnions.CollapsedFolds` | tools/openapi_export.py:138-147 | a walked node folds again exactly when both its unions qualified, because of the break |
| `NullableUnions.CollapseIsIdempotentExactly` | tools/openapi_export.py:129-151 | a second collapse changes nothing, and counts zero, if and only if no visited node holds two qualifying unions |
| `ConfigMerge.FindKey` | cli/client/config/writer.go:257-264 | the index of the first entry of that key, or -1 |
| `ConfigMerge.PruneKeysNotIn` | cli/client/config/writer.go:228-236 | compaction in place over the same array leaves exactly the kept entries, in order |
| `ConfigMerge.MergeMapping` | cli/client/config/writer.go:205-224 | the recursive overlay loop computes the ordered merge at every depth |
| `ConfigMerge.MergeIsMapMerge` | cli/client/config/writer.go:185-224 | for unique-key trees of any depth the ordered in-place merge is a recursive merge of maps, and keys stay unique |
| `ConfigMerge.MergeKeepsOrder` | cli/client/config/writer.go:205-236 | kept keys keep their order and comments, new keys follow in source order, and under pruning exactly the source's keys are left |
| `ConfigMerge.MergedLeafAt` | cli/client/config/writer.go:205-224 | a leaf is in the merged tree if and only if the source has it at that path, or the destination has it and no step of the path is pruned or overwritten |
| `ConfigMerge.UnknownFieldSurvivesExactly` | cli/client/config/writer.go:205-220 | a field the schema does not know survives in a kept entry if and only if the entry is not itself named `contexts`, `environments` or `identities` |
| `ConfigMerge.SavedConfigReadsBackExactly` | cli/client/config/schema.go:16-65 | what a mutation leaves on disk decodes to the mutated config if and only if no omit-when-empty field that was set is emptied |
| `ConfigMerge.FreshConfigReadsBack` | cli/client/config/writer.go:113-142 | a config written where there was no file always reads back |
| `ConfigMerge.ConfigFile.MutateConfig` | cli/client/config/writer.go:78-159 | saves exactly when the file decodes and the mutator succeeds, else leaves the document alone; what is saved is the merge and reads back under the condition above |
| `Names.SanitizeName` | cli/client/config/writer.go:42-59 | the string that is reassigned step by step ends as the sanitized name; no name ever needs the "x" prefix and the last validity check never fails |
| `Names.SanitizedIsValid` | cli/client/config/writer.go:26-59 | every string becomes a valid name that does not end in a hyphen, or nothing |
| `Names.SanitizedIsEmptyExactly` | cli/client/config/writer.go:34-45 | nothing is left if and only if no character is, or lowers to, a letter or digit of the charset |
| `Names.ValidNameIsKeptExactly` | cli/client/config/writer.go:34-59 | a valid name is kept if and only if it does not end in a hyphen |
| `Names.SanitizeSettles` | cli/client/config/writer.go:42-59 | sanitizing twice is sanitizing once, for every string |
| `Names.RunBecomesHyphen` | cli/client/config/writer.go:44-44 | each whole run of characters outside the charset becomes exactly one hyphen, and everything else stays |
| `Names.ClampsAtMost` | cli/client/config/writer.go:53-56 | the result is the longest start of the trimmed name of at most 64 characters that does not end in a hyphen |
| `LockedFile.StepKeepsInv` | cli/internal/config/file.go:198-262 | every step of every process keeps the protocol invariant; only a rename moves the file, and it installs what that process mutated |
| `LockedFile.RunKeepsInv` | cli/internal/config/file.go:198-262 | the invariant holds at every moment of every run |
| `LockedFile.FileIsFoldOfCommitted` | cli/internal/config/file.go:198-262 | in every interleaving with crashes a reader finds a whole config: the fold of exactly the mutators whose rename has landed, in that order |
| `LockedFile.CriticalSectionIsExclusive` | cli/internal/config/lock.go:26-42 | no two processes are between lock and unlock at once, whoever crashes |
| `LockedFile.RenameReplacesWhatWasRead` | cli/internal/config/file.go:241-262 | no update is lost: when a rename lands, the file still holds what that mutator read under the lock |
| `LockedFile.LogIsCommitted` | cli/internal/config/file.go:241-262 | the log the invariant speaks of is the sequence of committed mutators read off the run |
| `AgentState.StepKeepsInv` | cli/internal/config/agentstate.go:103-179 | over two files and two locks each step keeps the invariant, and the visible record changes only at a save, by that mutator |
| `AgentState.VisibleIsFoldOfCommitted` | cli/internal/config/agentstate.go:103-130 | over every run with concurrent legacy writes and crashes the visible record is the fold of exactly the saved mutators: adoption loses and resurrects nothing |
| `AgentState.LegacyOnlyFades` | cli/internal/config/agentstate.go:169-179 | between any two moments the new file stays and the legacy account is unchanged or gone, gone only once the new file exists |
| `AgentState.AdoptedRecordHidesLegacy` | cli/internal/config/agentstate.go:59-90 | once the new file exists no later read depends on the legacy copy, whatever it holds |
| `AgentState.UnlockedReadExactly` | cli/internal/config/agentstate.go:65-85 | a read without the lock returns the record if and only if there was none or no clearing save landed between its two reads; otherwise it returns nothing |
| `AgentState.UnlockedReadCanMiss` | cli/internal/config/agentstate.go:65-85 | a run in which the record is there throughout and such a read misses it |
| `Glob.GlobToRegex` | tools/ci_pass_markers.py:75-99 | the scan that appends piece by piece computes the compiled expression |
| `Glob.CompiledGlobMatchesBySegment` | tools/ci_pass_markers.py:75-99 | if double stars fill whole segments, the expression matches a newline-free path if and only if the glob matches it segment by segment |
| `Glob.PartialDoubleStarCrossesSlash` | tools/ci_pass_markers.py:88-90 | for every segment with a double star between, before or after plain parts: whatever the parts match on their own, with a slash between, the expression matches and the segment does not |
| `GlobExact.PartialDoubleStarDropsSlash` | tools/ci_pass_markers.py:84-87 | the other failing family: a double star that ends a segment swallows the slash after it, so the parts written together are matched although the glob has two segments |
| `GlobExact.AgreesEverywhereExactly` | tools/ci_pass_markers.py:75-99 | a glob with no whole double-star segment is matched on all newline-free paths as its segments are, if and only if it has no double star at all, or names a newline and matches none |
| `GlobExact.WitnessMatches` | tools/ci_pass_markers.py:81-98 | the failing half by instance: for each such glob a path the expression matches and the segments do not, with a slash too few or too many |
| `GlobExact.HiddenPartialAgrees` | tools/ci_pass_markers.py:81-98 | with whole double stars no such condition holds: after one, a partial double star means what a star means, to the expression and to the segments |
| `CiMarkers.InputsHash` | tools/ci_pass_markers.py:119-128 | the loop feeds the digest the salt and then each matching line of the sorted listing |
| `CiMarkers.SameInputExactly` | tools/ci_pass_markers.py:119-137 | with the same filters a job has the same digest input in two runs if and only if they are on the same image and list the same lines of the files that the globs of its groups, the workflow, the composite actions or this tool name |
| `CiMarkers.PathFollowsFirstTab` | tools/ci_pass_markers.py:124-124 | the path of a listed line is what follows its first tab, tabs in the path included |
| `CiMarkers.GroupsOfJobs` | tools/ci_pass_markers.py:46-61 | which filter group each job depends on |
| `CiMarkers.DigestIgnoresOrder` | tools/ci_pass_markers.py:119-128 | listings that are permutations of each other give the same digest input |
| `CiMarkers.DigestInputIsInjective` | tools/ci_pass_markers.py:119-137 | with whitespace-free salts, equal digest inputs mean equal salts and equal lines |
| `CiMarkers.KeysAgree` | tools/ci_pass_markers.py:140-141 | keys with digests of one length agree only for the same job and digest |
| `CiMarkers.ReadableRefsAreTrusted` | tools/ci_pass_markers.py:163-172 | a ref is readable if and only if it is the run's own, its base branch or the default branch |
| `CiMarkers.Lookup` | tools/ci_pass_markers.py:175-191 | every job is decided; it is skipped exactly when the event allows it and its marker is on a readable ref; an unreachable service means run |
| `CiMarkers.MarkerHasPass` | tools/ci_pass_markers.py:144-160 | over every history, evictions included, each marker in the service was saved by an earlier pass on that ref |
| `CiMarkers.SkipIsJustified` | tools/ci_pass_markers.py:119-191 | over every history of runs a job is skipped only if the same job passed earlier on a trusted ref, on the same image, with the same filters, and with the same lines of every file that a glob of its groups or one of the three common ones matches; and never on a scheduled, manual or full run |
| `CiMarkers.SkipsExactly` | tools/ci_pass_markers.py:175-191 | what decides one job, in terms of the environment and the key "ci-pass-<job>-<digest>" on a readable ref |
| `CiMarkers.MarkersAreExactly` | tools/ci_pass_markers.py:144-160 | over every history the service holds exactly the markers of passes that were not evicted since |
| `CiMarkers.UnchangedIsSkippedLater` | tools/ci_pass_markers.py:13-18 | the other direction over every history: a job that passed on a readable ref is skipped later when nothing that concerns it changed, whatever else did |
| `CiMarkers.ReadsOnlyItselfExactly` | tools/ci_pass_markers.py:163-172 | every readable ref is the run's own if and only if its base and default branches are that ref or absent |
| `CiMarkers.DefaultBranchTrustsItself` | tools/ci_pass_markers.py:13-18 | the marker of a pull request never satisfies the default branch: over every history a run there, with no base branch, skips a job only after an earlier pass of it on that same ref |
| `CodexToml.LineAnchoredIndex` | cli/internal/mcpcfg/toml.go:172-185 | the moving-offset search returns the first occurrence that begins a line |
| `CodexToml.RenderCodexBlock` | cli/internal/mcpcfg/toml.go:27-42 | the block built piece by piece is the rendered block |
| `CodexToml.UnescapeUndoesEscape` | cli/internal/mcpcfg/toml.go:47-51 | undoing the two global replacements one after the other is exact for every string |
| `CodexToml.UnquoteUndoesQuote` | cli/internal/mcpcfg/toml.go:158-165 | reading a quoted string gives back every string |
| `CodexToml.MergeIsSplice` | cli/internal/mcpcfg/toml.go:67-107 | a merge is refused or puts the block between surroundings that depend on the file alone; `changed` says whether a byte differs |
| `CodexToml.AppendedBlockStandsApart` | cli/internal/mcpcfg/toml.go:78-86 | a file without a block gets it at its end, its last line ended first and exactly one empty line between |
| `CodexToml.BlockText` | cli/internal/mcpcfg/toml.go:27-42 | the block spelled out, markers, table, command and arguments |
| `CodexToml.RegionOfSpliced` | cli/internal/mcpcfg/toml.go:67-107 | a spliced block is found again exactly where it was put |
| `CodexToml.MergeTwiceIsOnce` | cli/internal/mcpcfg/toml.go:67-107 | merging the same newline-free entry again is a no-op |
| `CodexToml.LaterEntryOverrides` | cli/internal/mcpcfg/toml.go:67-107 | a later entry gives, byte for byte, the file it would have given had it been merged first |
| `CodexToml.OutsideIsUntouched` | cli/internal/mcpcfg/toml.go:67-116 | every byte outside the markers is kept; a file of only line breaks is the exception |
| `CodexToml.ExactlyOneTable` | cli/internal/mcpcfg/toml.go:67-107 | the result has one line that opens the jentic table, and it is the block's |
| `CodexToml.ReadCodexEntry` | cli/internal/mcpcfg/toml.go:123-154 | the line loop reads the entry of the specification, or none |
| `CodexToml.LinesAround` | cli/internal/mcpcfg/toml.go:137-140 | the lines read are the non-empty runs between line breaks |
| `CodexToml.WrittenEntryReadsBackExactly` | cli/internal/mcpcfg/toml.go:123-165 | a merged entry reads back if and only if its command and arguments are non-empty and no argument holds a comma followed by a space |
| `TokenCache.TokenFilesAreDistinct` | cli/client/auth/keys.go:49-54 | distinct valid pairs never share a file, and no file name has a separator |
| `TokenCache.DeadlineIsAhead` | cli/client/auth/oauth.go:367-378 | the renewal deadline is strictly ahead and never past the lifetime, whatever the server sent |
| `TokenCache.LifetimeIsTakenExactly` | cli/client/auth/oauth.go:367-372 | the lifetime is the server's if and only if it is positive and fits a 64-bit duration |
| `TokenCache.RenewedExactly` | cli/client/auth/oauth.go:367-378 | a token is renewed exactly 30 seconds before its end, or at half of a lifetime under a minute; without a positive lifetime it counts as living for a minute |
| `TokenCache.WrapsTo64Bits` | cli/client/auth/oauth.go:369-369 | any other lifetime is what 64 bits leave of it |
| `TokenCache.MintKeyIsInjective` | cli/client/auth/middleware.go:191-193 | a flight key names one base URL and one pair |
| `TokenCache.StepKeepsInv` | cli/client/auth/middleware.go:126-213 | each read, join, mint, save, invalidation and clock step keeps the cache invariant |
| `TokenCache.CacheHoldsOwnToken` | cli/client/auth/tokens.go:47-100 | in every interleaving of callers and processes a token file is absent or one whole token minted for its own pair |
| `TokenCache.OneMintPerKey` | cli/client/auth/middleware.go:150-182 | a process has at most one mint in flight for a key |
| `TokenCache.CachedTokenIsFresh` | cli/client/auth/middleware.go:126-149 | a token served from the cache is the caller's pair's and has at least min(30s, lifetime/2) left |
| `TokenCache.FlightTokenIsOwn` | cli/client/auth/middleware.go:150-193 | a token handed out by a flight was minted for exactly the caller's base URL and pair |
| `TokenCache.CacheRespectsBaseExactly` | cli/client/auth/tokens.go:29-61 | for every set of credentials callers may use: in every run every token served from the cache was minted at the caller's base URL, if and only if no valid pair of the set has two base URLs, the first of them NUL-free |
| `TokenCache.CacheIgnoresBaseURL` | cli/client/auth/tokens.go:29-61 | the failing half: for any two base URLs of a pair, a run on just these credentials in which the cache serves one a token minted at the other |
| `SkillInstall.SkillDir.Apply` | cli/internal/skillgen/apply.go:135-204 | outcome flags and the whole new directory, for every directory, release, force and dry run; an unforced apply over an edited skill changes nothing at all; the dry run reports the outcome the real one has and writes nothing |
| `SkillInstall.SkillDir.ApplyReferences` | cli/internal/skillgen/apply.go:216-252 | shipped references are written, recorded and dropped ones pruned, and `changed` says whether a file differs |
| `SkillInstall.SkillDir.PendingReferenceChanges` | cli/internal/skillgen/apply.go:258-282 | the read-only mirror answers exactly whether an apply would change a reference |
| `SkillInstall.SkillDir.Remove` | cli/internal/skillgen/apply.go:463-495 | an edited skill stays unless forced; else the skill, its sidecar and every recorded or shipped reference go |
| `SkillInstall.RepeatedApplyIsSkippedExactly` | cli/internal/skillgen/apply.go:135-204 | a repeated unforced apply never changes anything, and reports a skip if and only if the file was not edited before or a sidecar was written |
| `SkillInstall.FingerprintsAgreeExactly` | cli/internal/skillgen/adapters.go:120-123 | the sidecar's hash tells two texts apart if and only if they differ beyond trailing newlines |
| `SkillInstall.EditsAreSeenExactly` | cli/internal/skillgen/apply.go:289-305 | after an apply that wrote its sidecar, a text put in the skill's place counts as edited if and only if it differs from the release's beyond trailing newlines |
| `SkillInstall.EditsAreKept` | cli/internal/skillgen/apply.go:135-141 | such an edit is kept by every unforced apply of every release, and by every unforced removal |
| `SkillInstall.NewerExactly` | cli/internal/skillgen/status.go:211-240 | a version is newer if and only if both are numbers and, where they first differ (a missing part is 0), its own is the larger |
| `SkillInstall.VersionReadsBack` | cli/internal/skillgen/status.go:243-258 | every dotted version whose parts fit an int is read as those numbers, with or without a leading v |
| `SkillInstall.OtherVersionsAreUnknown` | cli/internal/skillgen/status.go:243-258 | a version with any other character is no version |
| `SkillInstall.VersionTokenIsHarmless` | cli/internal/skillgen/status.go:264-275 | what is recorded is at most 32 characters of the harmless set, and a version of that kind as it is, with or without quotes and blanks around it |
| `SkillInstall.OtherVersionsAreDropped` | cli/internal/skillgen/status.go:264-275 | a version with any other character inside is recorded as none |
| `SkillInstall.ValidNameStaysInside` | cli/internal/skillgen/safe_remove.go:47-55 | a name without separators is accepted if and only if, resolved component by component, it leads to a file of that name right under the directory |
| `SkillRuns.PlanIsApply` | cli/internal/skillgen/apply.go:156-204 | all writes of the plan (skill, references, prunes, and the sidecar last) together are the apply |
| `SkillRuns.CutShape` | cli/internal/skillgen/apply.go:171-203 | what stands on disk when an apply stops after any of its writes: the old sidecar, the new skill, and the references it came to |
| `SkillRuns.StepStrays` | cli/internal/skillgen/apply.go:135-252 | for every event, interrupted ones and user edits included, and every name: exactly when a managed file is on disk and no sidecar records it |
| `SkillRuns.StrayExactly` | cli/internal/skillgen/apply.go:135-252 | over every run of applies, removals, interruptions after any write, lost sidecars and user edits: a managed file lies unrecorded on disk if and only if some event put it astray and none has taken it back since |
| `SkillRuns.RunStrandsNone` | cli/internal/skillgen/apply.go:151-155 | a run in which nothing is cut short or lost and no apply strands leaves each managed file recorded |
| `SkillRuns.CutApplyIsMendedExactly` | cli/internal/skillgen/apply.go:156-204 | forcing the same release again mends an apply that was cut short if and only if there was a sidecar, or no references ship, or nothing was written of a new skill text; without force it is refused as edited exactly when the old sidecar does not describe the new text |
| `SkillRuns.ManagedReferencesAreExact` | cli/internal/skillgen/apply.go:135-252 | after every accepted apply of every run the managed files are exactly the shipped references, with their texts, and those that were astray; other files are untouched |
| `SkillRuns.RemoveLeavesOnlyStrays` | cli/internal/skillgen/apply.go:463-495 | removal by whatever release leaves of the managed files exactly those astray that it does not ship |
| `SkillRuns.ApplyStrandsExactly` | cli/internal/skillgen/apply.go:156-204 | an apply leaves a managed file that no sidecar records if and only if it is forced, over a file that has no sidecar and already is the release's, and ships references |
| `SkillRuns.BlindApplyStrands` | cli/internal/skillgen/apply.go:156-204 | such a file stays through a later forced release that dropped it |
| `SecretsBaseline.NormalizeKeepsFindings` | tools/secrets_baseline.py:82-100 | normalizing neither drops nor adds a finding identity |
| `SecretsBaseline.NormalizeExactly` | tools/secrets_baseline.py:82-105 | the normal form keeps every top-level field but the timestamp, exactly the files that have entries, and of each its entries with nothing but the line numbers cleared, by hash and then by type |
| `SecretsBaseline.ScanFindsExactly` | tools/secrets_baseline.py:164-182 | a full scan has a finding if and only if the detectors find it in a file of the tree other than the baseline |
| `SecretsBaseline.NormalizeIsIdempotent` | tools/secrets_baseline.py:82-110 | a normalized baseline is its own normal form |
| `SecretsBaseline.Compare` | tools/secrets_baseline.py:126-161 | no problem is reported if and only if the text is the rendered normalized scan; a finding is reported new, or stale, exactly when only one side has it, and `version`, `plugins_used` or `filters_used` exactly when they differ |
| `SecretsBaseline.NewFindings` | tools/secrets_baseline.py:221-226 | the reported pairs are exactly the file and kind of each finding of a target that nothing allowlists |
| `SecretsBaseline.Trim` | tools/secrets_baseline.py:235-239 | the two loops give the trimmed allowlist, whatever repeats among the targets |
| `SecretsBaseline.BaselineFile.Hook` | tools/secrets_baseline.py:208-245 | exit status and text of the hook in every case: unstaged changes, bad JSON, failed scan, new finding, unchanged, trimmed; what an exit of 3 writes keeps every top-level field and is the normal form of the trimmed allowlist |
| `SecretsBaseline.UpdatedBaselineIsCurrent` | tools/secrets_baseline.py:202-205 | the text an update writes agrees with a full scan, and a hook on the unchanged tree, whatever files it is given, passes with exit 0 and leaves it alone |
| `SecretsBaseline.BaselineFile.Check` | tools/secrets_baseline.py:248-258 | passes if and only if the text is the rendered normalized scan, which is the scan with every field kept, in normal form |
| `SecretsBaseline.HookKeepsAgreement` | tools/secrets_baseline.py:208-245 | if the baseline agreed with a full scan before a commit, then after an exit of 0 or 3 it agrees with a full scan of the new tree |
| `SecretsBaseline.HookRefusesExactly` | tools/secrets_baseline.py:218-231 | the hook refuses a commit if and only if the new tree holds a finding that the old one did not, although it scans the staged files alone |
| `SecretsBaseline.HistoryKeepsAgreement` | tools/secrets_baseline.py:208-245 | the agreement holds after every prefix of every history of accepted commits |
| `SecretsBaseline.HookSettles` | tools/secrets_baseline.py:233-245 | after an exit of 3 the same commit passes with exit 0 and the file is not written again |
| `RetryTransport.RoundTrip` | cli/client/transport.go:63-231 | against every reply sequence the loop ends; each step is one the policy allows on the history so far, replies are taken in order, every send carries the whole original body and the newest bearer, a rate-limit wait is at most 30 seconds, a POST without a key (any verb but GET, HEAD and OPTIONS) is never backed off for and resent only two steps after a 401 or a 429; for the others each error among the first three sends leads to a backoff; the first 401 of a renewable credential leads to a renewal and the first 429 with a wait of at most 30 seconds to that wait; nothing at all is sent if and only if the body is too large, cannot be read or cannot be opened the first time, and it stops only when nothing is left to try or a wait or renewal failed |
| `RetryTransport.RetryIsBounded` | cli/client/transport.go:63-152 | at most six sends for a GET, HEAD, OPTIONS or a request with a key and three for any other, one renewal, one rate-limit wait, 1.4 seconds of backoff |
| `RetryTransport.SixSendsHappen` | cli/client/transport.go:63-152 | the bounds are met by a run |
| `RetryTransport.ResendNeedsARefusal` | cli/client/transport.go:63-152 | any verb but GET, HEAD and OPTIONS, without a key, is resent only right after a 401 or a 429 |
| `RetryTransport.EveryReplyIsAnswered` | cli/client/transport.go:86-150 | in every finished history each reply the policy acts on is acted on: errors backed off for, twice as long each time, refusals renewed, rate limits waited for |
| `PathParams.SubstitutePathParams` | cli/internal/agentops/execute.go:175-177 | the loop computes one replacement after another, and without nested braces in the template or braces in the keys the simultaneous substitution |
| `PathParams.SequentialIsSimultaneous` | cli/internal/agentops/execute.go:175-177 | for templates without nested braces and brace-free keys, replacing one after another is filling every hole of the parsed template at once by the first binding of its name |
| `PathParams.ReplaceFills` | cli/internal/agentops/execute.go:176-176 | in every template, nested or not, one global replacement fills exactly the holes of that name and changes no other token |
| `PathParams.OrderDoesNotMatterExactly` | cli/internal/agentops/execute.go:175-177 | all orders of parameters with distinct brace-free keys give the same URL if and only if no matched pair of braces in the template contains another |
| `PathParams.ValuesAddNoDelimiter` | cli/internal/agentops/execute.go:175-177 | for such templates, whatever the values, the URL has the slashes, question marks and hashes of the template and no more |
| `PathParams.UnescapeUndoesEscape` | cli/internal/agentops/execute.go:176-176 | unescaping a segment gives back every byte string that was escaped |
| `PathParams.EscapesExactly` | cli/internal/agentops/execute.go:176-176 | a byte is left alone if and only if a path segment may hold it; any other becomes its two upper-case hex digits |
| `PathParams.NestedBracesReplaceTwice` | cli/internal/agentops/execute.go:175-177 | the failing half: for every template with nested braces, parameters that give two URLs in two orders |
| `LocalAgent.QuotedReadsBack` | cli/internal/localagent/localagent.go:409-411 | the escaped text up to the closing quote is read as the original text |
| `LocalAgent.ScriptSplitsBack` | cli/internal/localagent/localagent.go:409-411 | a POSIX shell splits a line of quoted arguments, each with or without a bare prefix glued on, into one word per argument with its exact text |
| `LocalAgent.QuotingIsInjective` | cli/internal/localagent/localagent.go:409-411 | two arguments written the same way are the same word |
| `LocalAgent.RevokeScriptSplits` | cli/internal/localagent/localagent.go:137-145 | for every account name and directory the revoke script is exactly the two setfacl commands it is meant to be |
| `LocalAgent.AncestorChain` | cli/internal/localagent/localagent.go:106-124 | the directories from home down to the one above the leaf; for the home itself, every directory above it from the root |
| `LocalAgent.Reverse` | cli/internal/localagent/localagent.go:119-122 | the swap loop reverses the chain |
| `LocalAgent.ChainStartsAtHomeExactly` | cli/internal/localagent/localagent.go:100-124 | home is first in the chain, and in it at all, if and only if the leaf is not home itself or home is the root |
| `ImageRef.ReleaseTagIsATag` | cli/internal/install/image.go:77-125 | what counts as a release tag is a legal Docker tag that opens with a digit |
| `ImageRef.ReleaseTagIsSettled` | cli/internal/install/image.go:77-105 | the tag of a release names that release |
| `ImageRef.ReleaseHasTag` | cli/internal/install/image.go:68-108 | three numbers and perhaps a pre-release suffix, of at most 128 characters, are their own tag, bare, with a v in front, or between white space |
| `ImageRef.TagIsARelease` | cli/internal/install/image.go:68-132 | and nothing else has a tag |
| `ImageRef.OperatorPinsExactly` | cli/internal/install/image.go:160-178 | a tag the tool did not choose is any but "latest" and the releases; a reference by digest has none |
| `ImageRef.SwapKeepsRepository` | cli/internal/install/image.go:139-184 | a moved reference splits into the registry and repository it had and exactly the release's tag, and is not an operator pin |
| `ImageRef.LaterSwapWins` | cli/internal/install/image.go:139-154 | a later move overrides an earlier one |
| `ImageRef.SwapRefusesExactly` | cli/internal/install/image.go:139-184 | a move is refused exactly for a version that is no release, a reference with a digest, or one without a repository |
| `ComposeImage.SetImageOnLine` | cli/internal/install/compose_image.go:220-238 | in place, one line is rewritten, or on failure none |
| `ComposeImage.ComposeFile.SetImage` | cli/internal/install/compose_image.go:179-215 | fails if and only if a service is refused, and then, as in a dry run, writes nothing; otherwise writes the joined lines |
| `ComposeImage.RewrittenReadsBackExactly` | cli/internal/install/compose_image.go:146-150 | a rewritten line keeps indentation, quoting, comment and ending and matches again; a YAML reader finds the image on it if and only if the old line had room for a value |
| `ComposeImage.OtherLinesAreUntouched` | cli/internal/install/compose_image.go:190-208 | for every file and layout no line but the services' image lines changes, and none is added or dropped |
| `ComposeImage.MoveHitsTarget` | cli/internal/install/compose_image.go:179-215 | on a tidy file the move is never refused, gives exactly the target lines, and reports no change exactly when both services already run the image |
| `ComposeImage.MoveReadsBackAndSettles` | cli/internal/install/compose_image.go:179-215 | after a move both services read back exactly that image, and moving again is a no-op |
| `ComposeImage.LaterMoveWins` | cli/internal/install/compose_image.go:179-215 | a later move gives the file it would have given on its own |
| `ComposeImage.JoinUndoesLines` | cli/internal/install/compose_image.go:242-242 | splitting on line feeds and joining again is byte-identical |
| `ComposeImage.WrittenFileIsTheTarget` | cli/internal/install/compose_image.go:209-215 | the bytes written, split again, are the target lines and nothing else |
| `ComposeImage.StackMovesToRelease` | cli/internal/install/image.go:127-154 | reading the app's image, swapping its tag and writing it back puts app and broker on exactly that release of the repository the stack ran |

## Left out

- Walk: nested dictionaries are values that the method returns, so two references to one shared sub-schema (a YAML alias in the loaded spec) are not modelled as one object; the counter is a field.
- MergeMapping: nested `yaml.Node` pointers are values that the method returns; only the prune's compaction is on an array. Aliases, merge keys and duplicate keys of a document are not part of this model.
- FoldKeepsVerdictExactly: schemas are validated by the keywords `Json.dfy` lists; others (`pattern`, `format` as an assertion, `unevaluatedProperties`, `if`, `$defs` anchors) are annotations there. References are followed to a fuel bound, and the theorems hold for every bound.
- CollapseKeepsMeaning: requires of each folded node that branch and parent fit on one node; what happens otherwise is stated node by node (`FoldKeepsMeaningExactly`).
- SavedConfigReadsBackExactly: the schema's own fields and the sections' entries; YAML text, comments on values and document nodes other than mappings are not part of this model.
- ConfigFile: the lock and the temporary file of `MutateConfig` are in `LockedFile`, the merge is in `ConfigMerge`; the two models are joined by the mutator, not by one state.
- AgentState: a save is one step; `LockedFile` takes a save apart. That the process-wide lock file cannot be deleted while held is assumed.
- SkipIsJustified: the hash is ideal on the inputs of the history and 64 characters long; git lines are content-addressed; loading the filters from the workflow file is not part of this model.
- DigestInputIsInjective: file modes and hashes are any whitespace-free text of the length git prints; a path with an unusual character is taken as git quotes it.
- MergeTwiceIsOnce: entries hold no line break; with one the rendered block is not a block of lines. The permission bits and the write of the Codex file are not part of this model.
- CachedTokenIsFresh: one client clock that never goes back; static tokens and API keys, the HTTP exchange and error classification are not part of this model.
- TokenFilesAreDistinct: the pattern's end anchor is the end of the text, as in Go.
- ManagedReferencesAreExact: users create no file under a managed name; newline-normalized texts, file names compared by case, one skill on one operator, one process at a time. Sidecars written by hand, prunes and deletions that fail without ending the call, the shared-file operators (AGENTS.md splicing), legacy blocks and symlink checks are not part of this model.
- AgreesEverywhereExactly: of globs with a whole double-star segment only one direction is stated (`CompiledGlobMatchesBySegment`); the other is false (`HiddenPartialAgrees`).
- Remove: empty directories left behind are not part of this model.
- Compare: the order of the messages and of a document's top-level keys is not modelled; the JSON codec is assumed lossless, a missing `results` reads as an empty one.
- Check: what a scan prints is a parameter. A scan that fails ends `update` and `check` with exit 2 before they do anything.
- HookKeepsAgreement: the detectors are a function of a file's name and text, and the staged files are in the working tree as committed.
- Hook: a baseline that cannot be read as JSON ends the hook with Python's exit status for an uncaught error, 1; a missing file likewise, which is not part of this model.
- RoundTrip: parsing of Retry-After, draining, closing bodies and origin matching are parameters; GetBody, when it succeeds, gives the original body; times are the waits asked for.
- SubstitutePathParams: strings are bytes, chars below 256; query encoding, the broker prefix and headers are not part of this model.
- ScriptSplitsBack: the shell reader covers blanks, single quotes, backslashes and `&&`; expansions and other operators give no reading. The scripts that use variables (`RemoveSudoersCmd`) are not part of this model.
- AncestorChain: paths are cleaned absolute paths by component, on a POSIX host.
- SetImage: the YAML parser's shape and line of a service's image are a parameter; its value is read off that line by a reader of one-line scalars (no escapes, anchors or multi-word plain values). The temporary file, modes and fsync of the write are not part of this model.
- MoveHitsTarget: stated for tidy image lines (a plain image reference, perhaps in quotes, with room around it), which is what the template renders; for any file `OtherLinesAreUntouched` and `RewrittenReadsBackExactly` hold.
- SanitizeName: letters outside ASCII that lower to one outside the charset are left as they are; the result is the same.
- `ResolveAppImage`, the status-to-recovery tables, path getters and pagination: each is read off one body.
- The wizard, preflight, docker, git and uv runs, HTTP, signing, the UI and the Python entry points: plumbing around the cores.
