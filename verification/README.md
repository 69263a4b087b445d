# Incremental monorepo deployer — a Dafny model

The deployer walks a monorepo and finds every *unit*: a directory that holds a
manifest file (`deployment_config.yml`/`.yaml` for the per-environment
program in `strength-gadget/deploy.go`, `deployment_config.json` for the
single-target program in `strength-gadget/deployer/deploy.go`). A unit is named
after the directory that holds its manifest (`getLowestDirectory`), and no two
units may share a name. For every unit it then:

- hashes the unit's directory, feeding the SHA-256 of every file, in walk
  order, into one running SHA-256 and base64-encoding the sum;
- emits a manifest entry (`ApiConfig`: unit name, allowed HTTP methods, hash);
- when the unit is *dirty* (the previous snapshot lacks its hash) and its
  manifest's `type` is `"API"`, builds and zips an artifact;
- records `unit name → hash` in the new snapshot.

Once every unit is done it publishes the manifest entries to a file and the
snapshot to the parameter store. Separately, `determineWhatNeedsDeploying`
decides which environments need a deployment.

The model is functional:

- The repository is the sequence of entries `filepath.Walk` reports (`FileTree`).
- Go's `filepath.Dir`/`Base`/`Clean` are written out on strings (`Paths`).
- SHA-256, base64, manifest decoding and the build toolchain are
  function-valued parameters (`Digest.Hasher`, `Orchestrator.Collaborators`),
  so every property holds whatever those functions are.
- Each `log.Fatalf` is a `Failures.Error` value.
- The goroutines run one after the other in discovery order, and the first
  failure in that order stops the run.
- The previous snapshot is an input of `Orchestrator.Deploy`.

Modules:

- `results.dfy`: `Results`, `Failures`
- `paths.dfy`: `Paths`
- `filetree.dfy`: `FileTree`
- `digest.dfy`: `Digest`
- `environments.dfy`: `Environments`
- `units.dfy`: `Units` (identity, uniqueness, staleness, discovery)
- `orchestrator.dfy`: `Orchestrator` (the worker, the run, the snapshot read,
  re-runs)

The two programs differ in a few things, and `Orchestrator.Target` selects
between them:

- the manifest file names;
- where artifacts and the entries file go;
- the snapshot parameter's name.

## Model

| member | source | states |
|---|---|---|
| Environments.DiffOver | strength-gadget/deploy.go:263-275 | After visiting a sequence of wanted keys, the result holds only visited wanted keys at their wanted version. A visited key is in it exactly when it is wanted at "latest", absent from the deployed map, or deployed at another version. |
| Environments.DetermineWhatNeedsDeploying | strength-gadget/deploy.go:263-275 | The result is a sub-map of the wanted map. A wanted key is in it iff it is wanted at "latest", not yet deployed, or deployed at a different version. |
| Environments.IterationOrderIrrelevant | strength-gadget/deploy.go:266 | Two iteration orders of the wanted map give the same result, so Go's random map order cannot show. |
| Environments.LatestAlwaysDeployed | strength-gadget/deploy_test.go:256-273 | A key wanted at "latest" is always in the result, at "latest", even when it is already deployed at "latest". |
| Environments.DiffEdgeCases | strength-gadget/deploy_test.go:212-281 | An empty wanted map gives an empty result. An empty deployed map gives the wanted map itself. |
| Environments.DiffExampleChangedVersions | strength-gadget/deploy_test.go:156-174 | Test case: same keys with two changed versions. Exactly the two changed keys are deployed, for every order in which the keys are visited. |
| Environments.DiffExampleNewKey | strength-gadget/deploy_test.go:193-211 | Test case: a new key and a changed version. Exactly those two keys are deployed, for every order in which the keys are visited. |
| Environments.DiffExampleLatest | strength-gadget/deploy_test.go:257-273 | Test case: identical maps with one "latest" entry. Only that entry is deployed, for every order in which the keys are visited. |
| Paths.SplitJoin | strength-gadget/deploy.go:408-411 | Joining separator-free path elements and splitting the result gives the elements back. |
| Paths.JoinSplit | strength-gadget/deploy.go:408-411 | Splitting a path at its separators and joining the pieces gives the path back. |
| Paths.CleanOfAbsolute | strength-gadget/deploy.go:409 | `filepath.Clean` leaves an absolute path of normal elements unchanged. |
| Paths.BaseOfAbsolute | strength-gadget/deploy.go:410 | `filepath.Base` of an absolute path of normal elements is its last element. |
| Paths.LowestDirectoryOfAbsolute | strength-gadget/deploy.go:408-411 | `getLowestDirectory` of "/d1/.../dn/f" is dn, the name of the directory holding the file. |
| Paths.LowestDirectoryExample | strength-gadget/deploy_test.go:80-104 | Test case: "/home/ward/bound/lowest/some_file.txt" gives "lowest". |
| Paths.LowestDirectory | strength-gadget/deployer/deploy.go:264-267 | A unit name is never empty. It contains a separator only when it is the root "/" itself. |
| FileTree.Subtree | strength-gadget/deploy.go:439 | The walk of a unit directory is the repository's entries at or below that directory, in repository walk order, each once. Its j-th entry is the entry at the j-th such position of the repository walk. |
| FileTree.Lookup | strength-gadget/deploy.go:385-388 | Opening a path finds the first entry the walk reports for it: no earlier entry has that path. It finds nothing exactly when no entry has that path. |
| Digest.Feed | strength-gadget/deploy.go:439-456 | The hashing walk succeeds iff every entry is a directory or a readable file. It then feeds the file digests, in walk order, into the running hash. Otherwise it fails with the error of the first entry it cannot get past: a walk error, or a file it cannot hash. |
| Digest.HashDirectory | strength-gadget/deploy.go:436-462 | The digest succeeds iff every entry is readable. It is then base64(sha256(concatenated sha256 of each file's contents, in walk order)). On failure its error is that of the first entry the walk cannot read. |
| Digest.FeedSkipsDirectory | strength-gadget/deploy.go:444-446 | Inserting a directory entry anywhere in a walk changes nothing the hashing walk does, its errors included. |
| Digest.DirectoryEntriesContributeNothing | strength-gadget/deployer/deploy.go:300-302 | A directory entry anywhere in the walk leaves the directory digest unchanged. |
| Digest.DigestDependsOnlyOnContents | strength-gadget/deployer/deploy.go:292-318 | Two readable walks with the same ordered file contents have the same digest, whatever their paths and directories. |
| Digest.ConcatDigestsInjective | strength-gadget/deploy.go:448-453 | With 32-byte digests and no SHA-256 collision among the files involved, the concatenated file digests determine the ordered file contents. |
| Digest.DigestIdentifiesContents | strength-gadget/deploy.go:436-480 | Two readable walks have equal digests iff their ordered file contents are equal. This assumes 32-byte digests, no SHA-256 collision among the strings the two digests hash, and that base64 tells the two sums apart. |
| Units.AreDirectoryContentsDirty | strength-gadget/deploy.go:428-434 | A unit is clean iff the snapshot holds exactly the new hash under `Base(p)`. An absent key or another hash makes it dirty. |
| Units.DirtyExamples | strength-gadget/deploy_test.go:9-72 | The four test cases: an empty snapshot, another key and another hash are dirty. An exact match is clean. |
| Units.UnitNames | strength-gadget/deploy.go:301-302 | One unit name per manifest path, in order, each the path's lowest directory. |
| Units.FirstRepeat | strength-gadget/deploy.go:300-307 | The scan with a seen-set finds no repeat iff the names are pairwise distinct and none was seen before. Otherwise it returns the first position whose name was seen earlier, before which all names are distinct. |
| Units.ConfirmUniqueNames | strength-gadget/deploy.go:299-309 | Succeeds iff the unit names are pairwise distinct. Otherwise the error names the first unit name, in list order, that repeats an earlier one. |
| Units.DistinctUnitsIff | strength-gadget/deployer/deploy.go:155-165 | Distinct unit-name lists are exactly path lists where no two paths have the same lowest directory. |
| Units.TestPathUnitName | strength-gadget/deploy_test.go:119-121 | The unit name of "/home/of/the/<d>/deployment_config.json" is d. |
| Units.TestPathsUnitNames | strength-gadget/deployer/deploy_test.go:115-133 | The three test paths give the three directory names as unit names, in order. |
| Units.UniquenessExampleDistinct | strength-gadget/deploy_test.go:115-124 | Test case: three distinct directories pass. |
| Units.UniquenessExampleDuplicate | strength-gadget/deploy_test.go:125-135 | Test case: a repeated path fails, and the error names the repeated directory. |
| Units.CollectManifests | strength-gadget/deploy.go:146-157 | The discovery walk succeeds iff no entry reports an error. It then gives the path of every non-directory entry whose file name is a manifest name, in walk order, one per entry. Otherwise it fails at the first erroring entry. |
| Units.Discover | strength-gadget/deployer/deploy.go:69-86 | Discovery succeeds iff the walk is clean and some file has a manifest name. It then returns those files' paths, at least one, in walk order, one per entry. Otherwise the error is the first walk error, or "no manifests" when the walk was clean. |
| Orchestrator.ReadManifest | strength-gadget/deploy.go:384-395 | A manifest reads iff it can be opened and decoded, and the result is the decoded record. A path that is not a readable file fails as unreadable. A file that does not decode fails as malformed. |
| Orchestrator.ProcessUnit | strength-gadget/deploy.go:179-217 | The worker succeeds iff the directory hashes, the manifest reads, and any wanted build succeeds. A hash failure is its error. After a good hash, a manifest failure is its error. A wanted build that fails gives a build failure carrying the unit name and the build output. On success its outcome is the unit name, the new hash and the entry (unit, methods, hash). It requests a build exactly when the unit is stale under the lookup key and its manifest says "API". |
| Orchestrator.PublishedEntriesAreGenerated | strength-gadget/deploy.go:384-406 | `generateApiConfig`: a successful run publishes one entry per discovered manifest, in discovery order. Each entry is the manifest's unit name, its decoded allowed methods and this run's hash. No two entries name the same unit. |
| Orchestrator.ApiTypeDecidesBuild | strength-gadget/deploy.go:413-426 | `checkIfApiConfigType`: a stale unit whose manifest decodes is built exactly when the manifest's `type` is the text "API". |
| Orchestrator.FanOut | strength-gadget/deployer/deploy.go:99-142 | Running every worker succeeds iff each does, giving their outcomes in path order. Otherwise the error is that of the first worker in path order that fails. |
| Orchestrator.FanOutCongruent | strength-gadget/deployer/deploy.go:101-141 | Workers that agree on every path give the same fan-out. |
| Orchestrator.Builds | strength-gadget/deploy.go:199-204 | The builds are the requests of the outcomes that asked for one: one per such outcome, in the outcomes' order. A request is among the builds iff some outcome requested it. |
| Orchestrator.SnapshotOf | strength-gadget/deploy.go:215 | The new snapshot's keys are exactly the outcomes' unit names. Each name holds the hash of the last outcome that stored to it. |
| Orchestrator.SnapshotOfDistinct | strength-gadget/deploy.go:173-175 | With distinct unit names, the new snapshot has exactly one entry per unit, holding that unit's hash. |
| Orchestrator.Configs | strength-gadget/deploy.go:214 | One manifest entry per outcome, in order. |
| Orchestrator.Assemble | strength-gadget/deploy.go:171-219 | All workers, then the barrier. It succeeds iff every worker does, and the first failing worker's error stops it. With distinct unit names it publishes one entry per path and a snapshot with one agreeing entry per entry. It builds exactly the stale API units, once each, in discovery order. |
| Orchestrator.Deploy | strength-gadget/deploy.go:140-229 | A run: a discovery failure stops it, and duplicate names fail with the uniqueness check's error. Otherwise it is the workers' fan-out. It succeeds iff discovery succeeds, names are distinct and every worker succeeds. On success the publication goes to the target's file and parameter, with the contents stated for `Assemble`. |
| Orchestrator.LoadPriorSnapshotAsWritten | strength-gadget/deploy.go:122-138 | As written, any store error other than the not-found text is fatal. Every other reply, a found snapshot included, yields an empty snapshot. |
| Orchestrator.AsWrittenDiscardsStoredSnapshot | strength-gadget/deployer/deploy.go:55-61 | As written, a non-empty stored snapshot is never the one the run uses. |
| Orchestrator.LoadPriorSnapshot | strength-gadget/deployer/deploy.go:45-61 | As intended, a found snapshot is used and "not found" means empty. Any other error is fatal and carries its message. |
| Orchestrator.ProcessUnitDependsOnLookup | strength-gadget/deploy.go:192 | A worker sees the previous snapshot only through its staleness lookup. |
| Orchestrator.DeployCongruent | strength-gadget/deploy.go:178-219 | Two runs whose workers agree on every discovered path give the same result. |
| Orchestrator.ConfigsDetermined | strength-gadget/deployer/deploy.go:110-114 | The published manifest entries are determined by the repository alone, whether or not builds happen. |
| Orchestrator.SnapshotDetermined | strength-gadget/deploy.go:226 | The published snapshot is determined by the published manifest entries. |
| Orchestrator.NoBuildsWanted | strength-gadget/deploy.go:192-213 | When no unit is both stale and of API type, no build runs. |
| Orchestrator.QuietUnit | strength-gadget/deployer/deploy.go:115-136 | Under the unit-name lookup, a unit whose name the snapshot holds with the same hash is not built, and its worker cannot fail. |
| Orchestrator.DiscoveredAreManifests | strength-gadget/deploy.go:153-155 | Every discovered path ends in a manifest file name. |
| Orchestrator.NotPublishedKey | strength-gadget/deploy.go:215 | A key that no manifest entry carries is absent from the published snapshot. |
| Orchestrator.EmptySnapshotBuildsEveryApiUnit | strength-gadget/deploy.go:192-205 | From an empty previous snapshot, a successful run reads every manifest and builds exactly the units whose `type` is "API". |
| Orchestrator.RerunAsWrittenIgnoresSnapshot | strength-gadget/deploy.go:429 | As written, a rerun from the snapshot the last run published behaves exactly like a first run, rebuilding every API unit. The assumption is that no unit directory is named like a manifest file. |
| Orchestrator.RerunIsQuiet | strength-gadget/deploy.go:122-229 | As intended, rerunning an unchanged repository from the snapshot read back through the store succeeds and builds nothing. It publishes the same entries and snapshot again. |

## Left out

- Parameter-store I/O is not modelled. `GetParameter`, `PutParameter`, `updateHashes`, `recordSuccessfulDeployments` and `getEnvironmentDeploymentDetails` are all network calls. The previous snapshot is a `StoreReply` input, and the new one is a field of the publication.
- JSON marshalling of the snapshot and the entries is not modelled, nor `writeApiConfigsToFile`'s file creation and writes. These are library serialisation and filesystem writes. The model states what is written and where (`ConfigsFile`, `SnapshotParameter`), not the bytes.
- `os.Setenv`, `os.Getwd` and `session.NewSession` are not modelled. They are process environment and SDK setup. The walk given to `Deploy` stands for the tree under the working directory.
- JSON/YAML decoding of manifests is a parameter, `Collaborators.decode`. `generateApiConfig` and `checkIfApiConfigType` decode the same file into two different structs; the model decodes it once into `Manifest(configType, allowedHttpMethods)`, so both reads succeed or fail together. A file that decodes into one struct but not the other is not modelled. The per-environment program decodes `.yml`/`.yaml` files with a JSON decoder; that is inside `decode` too.
- `generateApiArtifact` (`go mod tidy`, `go build`, `zip`) is the `Collaborators.build` parameter. It reports success or the command output. The `BuildRequest` carries the unit, the source directory and the output directory the source uses.
- SHA-256 and base64 are the `Digest.Hasher` fields. Only `Digest.DigestIdentifiesContents` and `Digest.ConcatDigestsInjective` assume anything about them. They assume 32-byte digests (`FixedWidth`), and no SHA-256 collision among the byte strings the digests at hand hash (`NoCollisionAmong`). `DigestIdentifiesContents` also assumes that base64 maps the two sums it compares to different text when the sums differ. No function is injective on all byte strings, so neither lemma assumes that. `Digest.NoCollisionAmongSatisfiable` shows the assumptions can be met. `hashFile` is `sha256` of a file's whole contents; an open, read or close failure is the entry kind `Unopenable`.
- Goroutines, `sync.WaitGroup`, `sync.Map` and the unsynchronised `apiConfigs` append and shared `err` are not modelled: that is concurrency. The workers run in discovery order, the entries come out in discovery order, and the first failing worker in that order decides the error. In the source, entries come out in completion order and any failing worker may end the process first.
- `main()` of `strength-gadget/deploy.go` and `getEnvironmentsToDeploy` are not modelled. They are the SSM/file plumbing around `determineWhatNeedsDeploying`. So is the loop that deploys each environment, which ranges over the map's values and passes them as environment names.
- `database_nuker/main.go` is not part of this model. It is database connection plumbing with no decision logic of the deployer.
- The text of each error message and of the log lines is not modelled. `Failures.Error` keeps only which failure happened and its subject. A store error's message is compared with "ParameterNotFound: " exactly as the source compares `err.Error()`. The model does not say what text the AWS SDK actually produces.
- Orchestrator.LoadPriorSnapshot: a `Found(hashes)` reply stands for the stored {unit: hash} object decoded into a map. Fixing the condition at strength-gadget/deploy.go:133 alone would not give that. Decoding into `SourceHashes` fills nothing, because its one field is a `sync.Map`. The loader also needs a `map[string]string` decode target, and `Orchestrator.RerunIsQuiet` holds only for a loader with both changes.
- Orchestrator.Assemble: promises the publication contents only when unit names are distinct. `Orchestrator.Deploy` only calls it after the uniqueness check, so nothing is lost for a run.
- Units.AreDirectoryContentsDirty: keeps the source's `Base(p)` lookup key. The corrected lookup is `Orchestrator.KeyRule.UnitIdentity`; see Findings.

## Findings

| source | as written | input that shows it | evidently intended | confidence | as-written member | corrected member |
|---|---|---|---|---|---|---|
| strength-gadget/deploy.go:429 | The staleness lookup uses `filepath.Base(p)`, the manifest's own file name. The snapshot is stored under `getLowestDirectory(p)`, the unit name (line 215). | One API unit at "/r/login/deployment_config.yml". The first run publishes {"login": h}. A rerun with nothing changed looks up "deployment_config.yml", misses, and rebuilds the unit. | Look up `getLowestDirectory(p)`, the key the snapshot is written under. The tests pass a directory path and expect its last element, "register". | high; not executed | Orchestrator.RerunAsWrittenIgnoresSnapshot | Orchestrator.RerunIsQuiet |
| strength-gadget/deploy.go:133 | `if noHashesExistYetError == nil` tests a variable assigned a non-nil error two lines up. The stored snapshot is never decoded, and every run starts from an empty one. The same holds at strength-gadget/deployer/deploy.go:56. | The parameter store holds {"login": h}. The run uses the empty snapshot. | Decode the stored value when `GetParameter` succeeded (`err == nil`), and decode it into a `map[string]string`. The second change is needed too. The decode target `SourceHashes` (line 27) has a `sync.Map` as its only field, which has no exported fields, so a decode into it fills nothing. `updateHashes` (lines 311-320) also writes a flat {unit: hash} object, with no "hashes" key. | high; not executed | Orchestrator.AsWrittenDiscardsStoredSnapshot | Orchestrator.LoadPriorSnapshot |
