# mono release engine in Dafny

`mono release <version>` moves every Go module of a monorepo to one version.
It finds the modules under a context directory and resolves each module's
`require` lines against its sibling modules. It orders the modules so that
every module follows its dependencies, and sets every module and every
sibling requirement to the new version. Then, module by module in that order,
it rewrites go.mod, records its hash, and rewrites go.sum. In go.sum the
entries for each sibling dependency are swapped from the old version to the
new one, with that dependency's freshly computed hashes. The first error
stops the release.

The model follows the three Go files of that engine:

- `modules.dfy` (module `Modules`) holds the `Module` class, whose fields the
  release updates in place, and the methods FetchDirectDeps, UpdateVersion,
  UpdateGoMod, UpdateGoSum and updateSum. Each method is proved against a
  pure function (`DepsOf`/`VersionsOf`, `AddRequires`, `ApplyPins`).
- `modfile.dfy` (module `ModFile`) holds the part of go.mod the engine edits.
  It also holds a stand-in for golang.org/x/mod's `AddRequire`, following
  that library's documented behaviour: the first line for the path gets the
  version, the other lines for the path are removed, and a line is appended
  when there is none.
- `sumupdate.dfy` (module `SumUpdate`) is the go.sum table update of
  updateSum and UpdateGoSum, stated as functions on maps, with its lemmas.
- `sort.dfy` (module `ModuleSort`) is SortByDirectDeps: the unstable seed
  sort by dependency count, then rounds that place every module whose
  dependencies are already placed.
- `gosum.dfy` and `gosum_proofs.dfy` (modules `GoSum`, `GoSumProofs`) are the
  go.sum codec, Read and Format, and the round trip between them.
- `release.dfy` (module `Release`) is the `release` pipeline and
  ReleaseCmd's mapping of its error.
- `filesystem.dfy` (module `FileSystem`) is a disk: a map from paths to
  contents, a log of the writes made, and the set of paths a write fails on.
- `wrappers.dfy` holds `Option` and `Result`.

Collaborators outside the tool are fields of the `Modules.Env` datatype.
They are semver.IsValid, module.Sort's version order, modfile's Cleanup and
Format, dirhash.Hash1 and dirhash.HashDir. Each is a function of what it
reads: dirhash.HashDir receives the disk's files. Discovery (`modules.All`)
is an input to `Release.Release`: either the modules it found or its error.

A second release to the same version is not idempotent. updateSum builds its
old key and its new key from the same version, inserts the new entry and then
deletes it as the old one. For each sibling D that a module depends on, the
second run therefore removes the two entries `D v` and `D v/go.mod` at the
released version v from go.sum. D's entries at other versions stay
(`SumUpdate.SameVersionDropsEntry`). `SumUpdate.ApplyPinsResult`
is stated for the case where every dependency changes version.

## Model

| member | source | states |
|---|---|---|
| Modules.Module.constructor | modules/modules.go:22-31 | a module as discovery builds it: its go.mod and go.sum as parsed, no dependencies, no hashes |
| Modules.AddHits | modules/modules.go:89-95 | one `require` line appends every listed module with its path, and as many copies of the line's version |
| Modules.CollectDeps | modules/modules.go:88-96 | one module's `require` lines, in order, append `DepsOf` and `VersionsOf` of those lines |
| Modules.DepsOfNext | modules/modules.go:88-95 | one more `require` line appends the listed modules with its path to the dependencies, and as many copies of its version to their versions |
| Modules.FetchDirectDeps | modules/modules.go:86-98 | for modules listed once, every module's Deps and DepsVersion gain exactly `DepsOf`/`VersionsOf` of its own `require` lines, and no other field changes |
| Modules.HitsSound | modules/modules.go:89-94 | a module is matched for a path exactly when it is listed and has that path |
| Modules.DepsOfLength | modules/modules.go:91-92 | Deps and DepsVersion grow by the same length |
| Modules.DepsOfSound | modules/modules.go:86-98 | every recorded dependency is a listed module named by some `require` line, and the version beside it is that line's version |
| Modules.DepsOfComplete | modules/modules.go:86-98 | every pair of a `require` line and a listed module with that path is recorded, with that line's version |
| Modules.PinDeps | modules/modules.go:106-111 | one module's `require` lines become `AddRequires` of its dependencies' paths, in order |
| Modules.UpdateVersion | modules/modules.go:100-114 | an invalid version is an error and changes no module; otherwise every module takes the version and its dependencies are pinned to it; DepsVersion is untouched |
| ModFile.PinFromCount | modules/modules.go:107 | after AddRequire one line names the path, and every line for the path holds the new version |
| ModFile.AddRequirePins | modules/modules.go:107 | AddRequire leaves exactly one line for the path, with the new version |
| ModFile.PinFromOthers | modules/modules.go:107 | AddRequire keeps the lines of other paths, in order |
| ModFile.PinFromCountOther | modules/modules.go:107 | AddRequire adds no line for another path |
| ModFile.PinFromFixed | modules/modules.go:107 | AddRequire of a path already pinned to the version changes nothing |
| ModFile.AddRequiresPins | modules/modules.go:104-112 | after UpdateVersion's inner loop every dependency path has exactly one `require` line, holding the release version |
| ModFile.AddRequiresOthers | modules/modules.go:104-112 | lines for paths that are not dependencies are kept, in order |
| ModFile.AddRequiresFixed | modules/modules.go:104-112 | pinning paths that are already pinned to the version changes nothing |
| ModFile.AddRequiresIdempotent | modules/modules.go:104-112 | pinning the same dependencies twice equals pinning them once, so a module listed twice is updated as if listed once |
| Modules.UpdateGoMod | modules/modules.go:116-131 | GoModHash is the hash of the formatted go.mod, even on a dry run or a hash error; a hash error stops before writing; a dry run writes nothing; otherwise go.mod is written, or the write error is returned |
| SumUpdate.UpdateSum | modules/modules.go:160-185 | an empty hash fails with the table untouched; otherwise the new key holds exactly `[hash]`; when the two versions differ, the call succeeds exactly when the old key was present, which is then deleted, and a missing old key fails with the new key left in place; every key other than the old and the new one is unchanged |
| SumUpdate.SuffixInjective | modules/modules.go:161-174 | different versions give different keys under the same suffix |
| SumUpdate.SameVersionDropsEntry | modules/modules.go:161-179 | when the old and new versions coincide, the call succeeds and the entry is gone |
| Modules.UpdateSum | modules/modules.go:160-185 | the method leaves the table and the error that `SumUpdate.UpdateSum` gives |
| Modules.SwapDep | modules/modules.go:135-143 | one dependency's directory-hash entry, then its go.mod entry, as `ApplyPin` gives |
| Modules.SwapDeps | modules/modules.go:135-144 | all dependencies in order, stopping at the first failure, as `ApplyPins` gives |
| SumUpdate.ApplyPinsNext | modules/modules.go:135-144 | while no dependency has failed, the next dependency updates the table the earlier ones left |
| Modules.PinsOfShape | modules/modules.go:135-136 | UpdateGoSum reads one entry per dependency: its path, new version, old required version and two hashes |
| SumUpdate.ApplyPinsStops | modules/modules.go:135-144 | once a dependency fails, later dependencies leave the table alone |
| SumUpdate.EmptyHashFails | modules/modules.go:135-144 | a dependency whose directory hash or go.mod hash is still empty makes UpdateGoSum fail |
| SumUpdate.ApplyPinsKeepsOthers | modules/modules.go:135-144 | entries of paths that are not dependencies are unchanged, whatever the outcome |
| SumUpdate.GoModKeyDiffers | modules/modules.go:161-174 | a directory-hash key and a go.mod-hash key never coincide |
| SumUpdate.ApplyPinResult | modules/modules.go:135-143 | for one dependency that changes version: success exactly when both hashes are non-empty and both old entries exist, and then both old entries are replaced by the new ones; every key other than the dependency's four old and new keys is unchanged, whatever the outcome |
| SumUpdate.ApplyPinFrame | modules/modules.go:135-143 | one dependency's update, successful or not, changes no key but its four old and new keys |
| SumUpdate.ApplyPinsFrame | modules/modules.go:135-144 | the whole update, successful or not, changes no key but the dependencies' old and new keys |
| SumUpdate.LastPin | modules/modules.go:135-144 | once the earlier dependencies succeeded, the last one succeeds exactly when it is ready in the original table, and then every dependency so far is swapped |
| SumUpdate.ApplyPinsResult | modules/modules.go:135-144 | for distinct dependencies that each change version: success exactly when every dependency is ready, and then every dependency's entries are swapped; every key other than the dependencies' old and new keys is unchanged |
| Modules.UpdateGoSum | modules/modules.go:133-158 | the table is swapped as `ApplyPins` gives; an inconsistency stops before writing and leaves DirHash; unless dry, go.sum is written with a rendering in module.Sort order of the new table; only after that is DirHash computed from the disk |
| FileSystem.Disk.WriteFile | modules/modules.go:130 | a write either fails on opening and changes nothing, or sets the file and logs the path |
| ModuleSort.FewestDepsExists | modules/modules.go:191-193 | a non-empty list has a module with the fewest dependencies |
| ModuleSort.TakeFewest | modules/modules.go:191-193 | takes out one module with the fewest dependencies, any one of them |
| ModuleSort.SeedByDepCount | modules/modules.go:191-193 | the seed sort gives a permutation in ascending dependency count, whatever order ties take |
| ModuleSort.ContainsPath | modules/modules.go:206-211 | the search finds a resolved module exactly when one has the path |
| ModuleSort.DepsResolved | modules/modules.go:203-216 | a module is resolved exactly when every dependency's path is among the resolved modules |
| ModuleSort.PlacedGrows | modules/modules.go:203-216 | a module whose dependencies are resolved stays resolved as more modules are placed |
| ModuleSort.DepOrderedAppend | modules/modules.go:219-221 | appending a module whose dependencies are placed keeps the order valid |
| ModuleSort.Place | modules/modules.go:198-221 | one unresolved module: appended to the resolved list when its dependencies are already placed, otherwise kept for the next round; the order stays valid and no module is lost |
| ModuleSort.Round | modules/modules.go:197-222 | one round extends the resolved list, keeps it in dependency order, loses no module, and places every module that was ready at the round's start: nothing left for the next round had its dependencies resolved before the round |
| ModuleSort.SomeReady | modules/modules.go:194-227 | without a cycle, some unresolved module has all its dependencies resolved |
| ModuleSort.OrderedAcyclic | modules/modules.go:194-225 | a permutation in dependency order exists only for a graph without a cycle |
| ModuleSort.SortByDirectDeps | modules/modules.go:187-229 | fewer than two modules are returned unchanged; a success is a permutation in dependency order; with a cycle, or a dependency outside the list, it fails with the iteration error; with no cycle and at least as many rounds as modules, it succeeds |
| GoSum.IndexByte | gosum/gosum.go:27 | the first position of the newline, or -1 exactly when there is none |
| GoSum.Word | gosum/gosum.go:33 | the longest space-free prefix |
| GoSum.Fields | gosum/gosum.go:33 | the fields are non-empty and space-free |
| GoSum.AddLine | gosum/gosum.go:33-47 | blank lines, lines without exactly three fields and lines with the placeholder hash leave the table; any other line appends its hash under (path, version) and changes no other key |
| GoSum.Read | gosum/gosum.go:17-50 | a missing file leaves the table as it is; another read error is returned; otherwise every line is added, in file order |
| GoSumProofs.IndexByteIs | gosum/gosum.go:27 | IndexByte finds the first newline |
| GoSumProofs.ParseConcat | gosum/gosum.go:24-48 | reading whole lines then more text is reading one then the other |
| GoSumProofs.ParseTrailingNewline | gosum/gosum.go:24-32 | a final line without a newline is read as if it had one |
| GoSumProofs.ParseLastLine | gosum/gosum.go:24-32 | text without a newline reads the same with one newline appended |
| GoSumProofs.ParseKeepsExisting | gosum/gosum.go:46-47 | entries already in the table are kept, as a prefix of their lists |
| GoSumProofs.AddLineNoPlaceholder | gosum/gosum.go:42-45 | a line never adds the placeholder hash |
| GoSumProofs.ParseNoPlaceholder | gosum/gosum.go:12-15 | a table without the placeholder hash is still without it after Read |
| GoSumProofs.LineFields | gosum/gosum.go:33 | a formatted line splits back into its path, version and hash |
| GoSumProofs.ParseLine | gosum/gosum.go:33-47 | reading one formatted line appends its hash under its key |
| GoSumProofs.ParseKeyLines | gosum/gosum.go:60-64 | reading one key's lines appends its hashes in stored order |
| GoSumProofs.ParseRender | gosum/gosum.go:59-65 | reading what Format writes for distinct keys adds exactly those keys' entries |
| GoSumProofs.KeyOrderDistinct | gosum/gosum.go:53-57 | the sorted keys are distinct |
| GoSumProofs.FormatRoundTrip | gosum/gosum.go:17-67 | reading Format's output into an empty table gives back the table, for well-formed tables |
| GoSumProofs.FormattedReadsBack | gosum/gosum.go:17-67 | any data Format produces for a well-formed table reads back as that table |
| GoSum.KeyBeforeTransitive | gosum/gosum.go:57 | module.Sort's order on keys is transitive |
| GoSum.KeyBeforeIrreflexive | gosum/gosum.go:57 | no key is before itself |
| GoSum.MinIndex | gosum/gosum.go:57 | finds a key that no other key is before |
| GoSum.TakeMin | gosum/gosum.go:57 | takes out a key that no remaining key is before, keeping every other key |
| GoSum.SortModVersions | gosum/gosum.go:57 | module.Sort gives a permutation of the keys in which no key is before an earlier one |
| GoSum.MapKeys | gosum/gosum.go:53-56 | every key of the table once, in any order |
| GoSum.WriteLines | gosum/gosum.go:59-65 | one `path version hash` line per stored hash, key by key, in stored order |
| GoSum.Format | gosum/gosum.go:52-67 | the table's keys in module.Sort order, with each key's hashes in stored order |
| Release.CommandResult | release.go:44-53 | success stays success; no modules found becomes an input error naming the context directory; any other error is passed on |
| Release.GoModStep | release.go:76-79 | UpdateGoMod as the loop calls it: GoModHash becomes the hash of the formatted go.mod; the error is a hash error, then, unless dry, a write error on an unwritable go.mod, and nothing otherwise; a dry run or a failure changes no file, a success leaves the files with go.mod replaced by the formatted contents and nothing else changed, and logs exactly the module's go.mod |
| Release.GoSumStep | release.go:80-83 | UpdateGoSum as the loop calls it: the table becomes `ApplyPins` of the old table with the dependencies' current hashes; the error is an inconsistency, then a write error, then a directory-hash error; DirHash is taken from the files on disk only when the swap and the write got through; go.sum then holds a rendering of the new table and no other file changes, otherwise no file changes; go.sum is logged when the update succeeded or only the hash failed |
| Release.UpdateModule | release.go:76-83 | one module, go.mod then go.sum: the module ends in the state `Updated` gives from the table and DirHash it started with and the dependencies' hashes it read, and the files on disk become those `Wrote` gives from the files it started with (`Ran`); a go.mod failure stops before go.sum, leaves table and DirHash and changes no file; an error is GoModFailed or GoSumFailed naming the module's prefix and file name; the write log grows by both files or by what was written before the failure |
| Release.AllRanAt | release.go:75-89 | the record of a run of the loop says, for each module listed once, that it ran as `Ran` states, succeeding unless it is the last one processed |
| Release.AllRanAll | release.go:75-89 | the same for every position at once |
| Release.RanExtend | release.go:75-89 | the record of the modules processed so far, all successful, extends by the next module's run and its outcome |
| Release.Advance | release.go:76-83 | the update of the module at position i ran as `Ran` states, from the files on disk before it to those after it and, when it was not processed earlier, from the table and DirHash it held before the loop; modules before it listed once keep their final state; every module not yet processed still holds the hashes it had before the loop; the dependency hashes read by earlier modules whose dependencies all came before them are unchanged |
| Release.Step | release.go:75-89 | one pass of the loop: the record of runs grows by the module's run and still chains from the files before the loop to the files now; every module not yet processed keeps the hashes it had before the loop; the write log grows by the module's files or what its failure wrote |
| Release.ChainedNext | release.go:75-89 | a chain of runs from the files before the loop extends by a run that starts from the files the chain ended with |
| Release.RunAll | release.go:75-91 | the loop: every module listed once before the stopping one succeeded and the stopping one failed with the reported error, each from the table and DirHash it had before the loop; the runs chain the files on disk from before the loop to after it, one module's files feeding the next; modules after the stopping one keep all three hashes; a module whose dependencies all come before it read their final hashes; on success the log is `Plan`, on failure the error names the module at `done` and the log stops there |
| Release.UpdateFiles | release.go:75-91 | as RunAll, stated on the modules' final states: success only after every module, with exactly `Plan` written; otherwise the first error stops the loop, names that module, leaves earlier writes in place and leaves the later modules' hashes as they were; the final files on disk are those the chained runs give |
| Release.Prepare | release.go:66-74 | dependencies resolved, then sorted with as many rounds as modules, then versions set; a sort failure means a cycle and changes no version; an invalid version is reported only after a successful sort and changes no version; on success the order is a permutation in dependency order and every module takes the version with its dependencies pinned |
| Release.Resolve | release.go:66 | after FetchDirectDeps on discovered modules, each module depends exactly on the listed modules its `require` lines name, with one version per dependency |
| Release.PermutationOnce | release.go:67-70 | the sorted list, a rearrangement of distinct modules, lists each module once |
| Release.OrderedDepsBefore | release.go:67-89 | in dependency order, with one module per path, each module's dependencies come before it, so none is updated at or after it |
| Release.Publish | release.go:75-91 | the loop over the sorted modules (`Published`): each module up to the failing one ran as `Ran` states from its own table and DirHash, the runs chain the files on disk from before the loop to the final ones, no module after the failing one has its hashes changed, every module whose dependencies all come before it read their final hashes (swapping exactly its own dependencies' entries in go.sum), and with no two modules sharing a path that is every module; dependency lists and version bumps are kept |
| Release.PublishInOrder | release.go:75-91 | the same loop once the order is known to list each module once and, with one module per path, every module after its dependencies: `Published`, success only after every module with exactly `Plan` written, otherwise the error names the module at `done` |
| Release.LonePins | release.go:67-91 | in a release of one module that does not require itself, the single run's go.sum update read exactly the module's own dependencies with their final hashes |
| Release.ReleaseModules | release.go:66-92 | once modules were found: a cycle, or an invalid version after a successful sort, stops with no file written, no version changed and every module's GoModHash, table and DirHash unchanged; otherwise every module takes the version with its dependencies pinned, the modules are updated in dependency order as `Published` states (each listed once before the failing one succeeded, the failing one failed with the reported error, each read its dependencies' final hashes when they all come before it, later ones keep their hashes, and the final files on disk are those the runs chain to); the log is the full plan or stops at the failing module |
| Release.Release | release.go:58-92 | a discovery error or no modules stop before anything changes; then as ReleaseModules: a cycle or an invalid version stops before any file is written and with every module's hashes unchanged; otherwise every module takes the version, the modules run in dependency order as `Published` states, down to the final files on disk, and the write log is `Plan` of that order or stops at the failing module |

## Left out

- Discovery (`modules.All`, modules/modules.go:41-84) reads directories and files. `Release.Release` takes its result as an input, and `Release.Discovered` states what it guarantees: each module once, no dependencies resolved yet.
- The hash functions GoModHash and DirHash (modules/modules.go:231-245) call dirhash and are the `goModHash` and `dirHash` fields of `Env`. A failed hash leaves the empty string in the module (`HashValue`), as Go's zero value does.
- modfile's Parse, Cleanup and Format are the `format` field of `Env`, applied to the module path, version and `require` lines only.
- Modules.UpdateVersion: the error check after each AddRequire call (modules/modules.go:108-110) has no counterpart, because golang.org/x/mod's AddRequire returns nil on every path and the stand-in, like it, cannot fail.
- Modules.FetchDirectDeps: requires each module to be listed once, so that one module's updates do not alias another's. Discovery guarantees this.
- SumUpdate.ApplyPinsResult: requires distinct dependency paths, each changing version, with no '/' in a version. The same-version case is covered by `SumUpdate.SameVersionDropsEntry`.
- Modules.UpdateSum: omits updateSum's branch for an empty table. The new key has just been inserted, so that branch cannot be taken.
- FileSystem.Disk.WriteFile: writes are modelled as atomic. A failed write is one that fails on opening and leaves the file as it was; a failure in Write or Close, after os.WriteFile has truncated the file, is not modelled, so the write-error clauses of `Modules.UpdateGoMod` and `Modules.UpdateGoSum` promise an unchanged file where the program may leave it truncated or partly written.
- Paths are joined with "/" and are not cleaned as filepath.Join cleans them.
- Files are strings of characters: go.sum bytes are not decoded as UTF-8, and white space is Unicode White_Space on characters.
- slices.SortFunc sorts the caller's slice in place. The model sorts a sequence: `release` rebinds its slice to the result, so the in-place effect is not observable.
- Go's map iteration order is a nondeterministic choice (`GoSum.MapKeys`).
- Debug and info logging (slog) does not affect control flow and is not modelled.
- Release.UpdateFiles, Release.Publish, Release.ReleaseModules, Release.Release: the per-module outcome (`Ran`) and the starting table and DirHash are stated for modules listed once. Discovery lists each module once, and a module listed twice is updated as if listed once (`ModFile.AddRequiresIdempotent`), but its second update starts from the first one's result.
- Release.UpdateFiles, Release.RunAll: the dependency hashes a module reads are stated as final only when none of its dependencies is processed at or after it; Publish establishes this for dependency order with one module per path.
- Release.Publish, Release.ReleaseModules, Release.Release: a lone module that requires itself is not sorted (the sort is skipped below two modules), so no cycle is reported and its go.sum update reads its own hashes while they change; the dependencies it read are not stated for that case. Without a self-requirement the lone module's reads are stated (`Release.LonePins`).
- The CLI (parse.go, main.go) and the demo programs are not part of this model.
