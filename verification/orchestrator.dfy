/** The per-run pipeline: discover the units, check their names are unique,
    then for every unit hash its directory, produce its manifest entry,
    build it when it is stale and of API type, and record its hash in the
    new snapshot; publish the entries and the snapshot once every unit is
    done. The Go program runs one goroutine per unit; here the units are
    processed one after the other in discovery order, and the first failure
    in that order stops the run, as a `log.Fatalf` would. */
module Orchestrator {
  import opened Results
  import opened Failures
  import opened Paths
  import opened FileTree
  import opened Digest
  import opened Units

  /** Which of the two near-duplicate programs runs: the per-environment
      deployer, or the single-target one under `deployer/`. */
  datatype Target =
    | PerEnvironment(environment: string)
    | SingleTarget

  /** The file names that declare a unit. */
  function ManifestNames(t: Target): set<string> {
    match t
    case PerEnvironment(_) => {"deployment_config.yml", "deployment_config.yaml"}
    case SingleTarget => {"deployment_config.json"}
  }

  /** Where `generateApiArtifact` puts a unit's executable and archive. */
  function ArtifactDirectory(t: Target, unit: string): string {
    match t
    case PerEnvironment(env) => "/tmp/" + env + "/lambdas/" + unit
    case SingleTarget => "/tmp/lambdas/" + unit
  }

  /** Where `writeApiConfigsToFile` writes the manifest entries. */
  function ConfigsFile(t: Target): string {
    match t
    case PerEnvironment(env) => "/tmp/" + env + "/lambda_configs.json"
    case SingleTarget => "/tmp/lambda_configs.json"
  }

  /** The parameter-store key of the snapshot. */
  function SnapshotParameter(t: Target): string {
    match t
    case PerEnvironment(env) => env + "/source_hashes"
    case SingleTarget => "source_hashes"
  }

  /** The key the staleness check looks up for the manifest at `p`: the
      source looks up `filepath.Base(p)`, the manifest's own file name,
      while the snapshot is keyed by unit name. `UnitIdentity` is the
      corrected lookup. */
  datatype KeyRule = ManifestName | UnitIdentity

  function StaleKey(rule: KeyRule, p: string): string {
    match rule
    case ManifestName => Base(p)
    case UnitIdentity => LowestDirectory(p)
  }

  /** One invocation of `generateApiArtifact`: build in the unit's directory,
      place and zip the result in the output directory. */
  datatype BuildRequest = BuildRequest(unit: string, sourceDirectory: string, outputDirectory: string)

  datatype BuildStatus = Built | BuildError(output: string)

  /** What lies outside the model: hashing, manifest decoding, and the build
      toolchain (`go build` followed by `zip`). */
  datatype Collaborators = Collaborators(
    hasher: Hasher,
    decode: seq<byte> -> Option<Manifest>,
    build: BuildRequest -> BuildStatus)

  /** The build request for the manifest at `p`. */
  function RequestFor(t: Target, p: string): BuildRequest {
    BuildRequest(LowestDirectory(p), Dir(p), ArtifactDirectory(t, LowestDirectory(p)))
  }

  /** `hashDirectory(filepath.Dir(p))`. */
  function UnitHash(c: Collaborators, walk: seq<Entry>, p: string): Result<string, Error> {
    HashDirectory(c.hasher, Subtree(Dir(p), walk))
  }

  /** Opening and decoding the manifest at `p`. */
  function ReadManifest(c: Collaborators, walk: seq<Entry>, p: string): (r: Result<Manifest, Error>)
    ensures r.Success? <==>
      Lookup(walk, p).Some? && Lookup(walk, p).value.File? && c.decode(Lookup(walk, p).value.contents).Some?
    ensures r.Success? ==> Some(r.value) == c.decode(Lookup(walk, p).value.contents)
    ensures !(Lookup(walk, p).Some? && Lookup(walk, p).value.File?) ==> r == Failure(ManifestUnreadable(p))
    ensures Lookup(walk, p).Some? && Lookup(walk, p).value.File? && c.decode(Lookup(walk, p).value.contents).None?
            ==> r == Failure(ManifestMalformed(p))
  {
    match Lookup(walk, p)
    case Some(File(contents)) =>
      (match c.decode(contents)
       case Some(m) => Success(m)
       case None => Failure(ManifestMalformed(p)))
    case _ => Failure(ManifestUnreadable(p))
  }

  /** Whether the worker for `p` builds an artifact: the unit is stale under
      the lookup rule and its manifest says "API". */
  predicate BuildWanted(c: Collaborators, rule: KeyRule, prior: Snapshot, walk: seq<Entry>, p: string) {
    && UnitHash(c, walk, p).Success?
    && ReadManifest(c, walk, p).Success?
    && IsStale(StaleKey(rule, p), UnitHash(c, walk, p).value, prior)
    && Classify(ReadManifest(c, walk, p).value) == BuildableService
  }

  /** What one worker contributes: its manifest entry, its snapshot entry
      (unit, hash) and the build it requested, if any. */
  datatype UnitOutcome = UnitOutcome(config: ApiConfig, unit: string, hash: string, build: Option<BuildRequest>)

  /** The worker body for the manifest at `p`. */
  function ProcessUnit(c: Collaborators, t: Target, rule: KeyRule, prior: Snapshot, walk: seq<Entry>, p: string)
    : (r: Result<UnitOutcome, Error>)
    ensures r.Success? <==>
      && UnitHash(c, walk, p).Success?
      && ReadManifest(c, walk, p).Success?
      && (BuildWanted(c, rule, prior, walk, p) ==> c.build(RequestFor(t, p)).Built?)
    ensures UnitHash(c, walk, p).Failure? ==> r == Failure(UnitHash(c, walk, p).error)
    ensures UnitHash(c, walk, p).Success? && ReadManifest(c, walk, p).Failure?
            ==> r == Failure(ReadManifest(c, walk, p).error)
    ensures BuildWanted(c, rule, prior, walk, p) && c.build(RequestFor(t, p)).BuildError?
            ==> r == Failure(BuildFailed(LowestDirectory(p), c.build(RequestFor(t, p)).output))
    ensures r.Success? ==>
      && r.value.unit == LowestDirectory(p)
      && UnitHash(c, walk, p) == Success(r.value.hash)
      && r.value.config == ApiConfig(r.value.unit, ReadManifest(c, walk, p).value.allowedHttpMethods, r.value.hash)
      && r.value.build == (if BuildWanted(c, rule, prior, walk, p) then Some(RequestFor(t, p)) else None)
  {
    var hash :- UnitHash(c, walk, p);
    var manifest :- ReadManifest(c, walk, p);
    var config := GenerateApiConfig(p, hash, manifest);
    if IsStale(StaleKey(rule, p), hash, prior) && Classify(manifest) == BuildableService then
      match c.build(RequestFor(t, p))
      case BuildError(output) => Failure(BuildFailed(LowestDirectory(p), output))
      case Built => Success(UnitOutcome(config, LowestDirectory(p), hash, Some(RequestFor(t, p))))
    else
      Success(UnitOutcome(config, LowestDirectory(p), hash, None))
  }

  /** Every worker, in discovery order, up to the barrier: the outcomes of
      all of them, or the failure of the first one that fails. */
  function FanOut<T>(work: string -> Result<T, Error>, paths: seq<string>): (r: Result<seq<T>, Error>)
    ensures r.Success? <==> forall i :: 0 <= i < |paths| ==> work(paths[i]).Success?
    ensures r.Success? ==>
      && |r.value| == |paths|
      && forall i :: 0 <= i < |paths| ==> work(paths[i]) == Success(r.value[i])
    ensures r.Failure? ==>
      exists i :: 0 <= i < |paths|
        && work(paths[i]) == Failure(r.error)
        && forall j :: 0 <= j < i ==> work(paths[j]).Success?
  {
    if |paths| == 0 then Success([])
    else
      var init := paths[..|paths| - 1];
      assert forall i :: 0 <= i < |init| ==> init[i] == paths[i];
      var done :- FanOut(work, init);
      var last :- work(paths[|paths| - 1]);
      Success(done + [last])
  }

  /** Workers that agree on every path fan out to the same result. */
  lemma {:induction false} FanOutCongruent<T>(w1: string -> Result<T, Error>, w2: string -> Result<T, Error>,
                                              paths: seq<string>)
    requires forall i :: 0 <= i < |paths| ==> w1(paths[i]) == w2(paths[i])
    ensures FanOut(w1, paths) == FanOut(w2, paths)
    decreases |paths|
  {
    if |paths| > 0 {
      var init := paths[..|paths| - 1];
      assert forall i :: 0 <= i < |init| ==> init[i] == paths[i];
      FanOutCongruent(w1, w2, init);
    }
  }

  /** Which outcomes requested a build. */
  function BuildMask(outcomes: seq<UnitOutcome>): (m: seq<bool>)
    ensures |m| == |outcomes|
    ensures forall i :: 0 <= i < |outcomes| ==> m[i] == outcomes[i].build.Some?
  {
    seq(|outcomes|, i requires 0 <= i < |outcomes| => outcomes[i].build.Some?)
  }

  /** The requested builds: one per outcome that requested one, in the
      outcomes' order. */
  function Builds(outcomes: seq<UnitOutcome>): (builds: seq<BuildRequest>)
    ensures |builds| == |Positions(BuildMask(outcomes))|
    ensures forall j :: 0 <= j < |builds| ==> outcomes[Positions(BuildMask(outcomes))[j]].build == Some(builds[j])
    ensures forall b :: b in builds <==> exists i :: 0 <= i < |outcomes| && outcomes[i].build == Some(b)
  {
    if |outcomes| == 0 then []
    else
      var rest := Builds(outcomes[1..]);
      var m := BuildMask(outcomes);
      assert m[1..] == BuildMask(outcomes[1..]);
      assert forall i :: 1 <= i < |outcomes| ==> outcomes[i] == outcomes[1..][i - 1];
      SomeStep(m, outcomes, (o: UnitOutcome) => o.build, rest);
      match outcomes[0].build
      case Some(b) => [b] + rest
      case None => rest
  }

  /** The new snapshot: each worker stores (unit, hash); a later store to
      the same unit overwrites an earlier one. */
  function SnapshotOf(outcomes: seq<UnitOutcome>): (s: Snapshot)
    ensures forall k :: k in s <==> exists i :: 0 <= i < |outcomes| && outcomes[i].unit == k
    ensures |outcomes| > 0 ==> s[outcomes[|outcomes| - 1].unit] == outcomes[|outcomes| - 1].hash
    ensures LastStoreWins(outcomes, s)
  {
    if |outcomes| == 0 then map[]
    else
      var init := outcomes[..|outcomes| - 1];
      var last := outcomes[|outcomes| - 1];
      assert forall i :: 0 <= i < |init| ==> init[i] == outcomes[i];
      assert outcomes == init + [last];
      LastStoreStep(SnapshotOf(init), init, last);
      SnapshotOf(init)[last.unit := last.hash]
  }

  /** Whether a later outcome than the `i`-th stores to the same unit. */
  ghost predicate StoredLater(outcomes: seq<UnitOutcome>, i: nat)
    requires i < |outcomes|
  {
    exists j :: i < j < |outcomes| && outcomes[j].unit == outcomes[i].unit
  }

  /** Every unit holds the hash of the last outcome that stored to it. */
  ghost predicate LastStoreWins(outcomes: seq<UnitOutcome>, s: Snapshot) {
    forall i :: 0 <= i < |outcomes| && !StoredLater(outcomes, i)
      ==> outcomes[i].unit in s && s[outcomes[i].unit] == outcomes[i].hash
  }

  /** One more store keeps the last store to every unit. */
  lemma LastStoreStep(s: Snapshot, init: seq<UnitOutcome>, last: UnitOutcome)
    requires LastStoreWins(init, s)
    ensures LastStoreWins(init + [last], s[last.unit := last.hash])
  {
    var outcomes := init + [last];
    var s' := s[last.unit := last.hash];
    forall i | 0 <= i < |outcomes| && !StoredLater(outcomes, i)
      ensures outcomes[i].unit in s' && s'[outcomes[i].unit] == outcomes[i].hash
    {
      if i < |init| {
        assert outcomes[i] == init[i];
        assert outcomes[|init|] == last;
        assert last.unit != init[i].unit;
        forall j | i < j < |init|
          ensures init[j].unit != init[i].unit
        {
          assert outcomes[j] == init[j];
        }
        assert !StoredLater(init, i);
      }
    }
  }

  /** With distinct unit names, the new snapshot has one entry per unit,
      holding that unit's hash. */
  lemma {:induction false} SnapshotOfDistinct(outcomes: seq<UnitOutcome>)
    requires forall i, j :: 0 <= i < j < |outcomes| ==> outcomes[i].unit != outcomes[j].unit
    ensures |SnapshotOf(outcomes)| == |outcomes|
    ensures forall i :: 0 <= i < |outcomes| ==> SnapshotOf(outcomes)[outcomes[i].unit] == outcomes[i].hash
    decreases |outcomes|
  {
    if |outcomes| > 0 {
      var init := outcomes[..|outcomes| - 1];
      var last := outcomes[|outcomes| - 1];
      assert forall i :: 0 <= i < |init| ==> init[i] == outcomes[i];
      SnapshotOfDistinct(init);
      var s := SnapshotOf(init);
      forall i | 0 <= i < |init|
        ensures init[i].unit != last.unit
      {
        assert init[i] == outcomes[i];
      }
      assert last.unit !in s;
      SnapshotStep(s, init, last);
      assert SnapshotOf(outcomes) == s[last.unit := last.hash];
    }
  }

  /** Storing one more, new, unit in a snapshot that already holds `init`. */
  lemma SnapshotStep(s: Snapshot, init: seq<UnitOutcome>, last: UnitOutcome)
    requires last.unit !in s
    requires |s| == |init|
    requires forall i :: 0 <= i < |init| ==> init[i].unit in s && s[init[i].unit] == init[i].hash
    ensures |s[last.unit := last.hash]| == |init| + 1
    ensures forall i :: 0 <= i < |init + [last]| ==>
      s[last.unit := last.hash][(init + [last])[i].unit] == (init + [last])[i].hash
  {
    forall i | 0 <= i < |init + [last]|
      ensures s[last.unit := last.hash][(init + [last])[i].unit] == (init + [last])[i].hash
    {
      if i < |init| {
        assert (init + [last])[i] == init[i];
      }
    }
  }

  /** What a successful run publishes: the manifest entries, the new
      snapshot, and where each goes; and the builds it ran on the way. */
  datatype Publication = Publication(
    configsFile: string,
    configs: seq<ApiConfig>,
    snapshotParameter: string,
    snapshot: Snapshot,
    builds: seq<BuildRequest>)

  /** The manifest entries, in order. */
  function Configs(outcomes: seq<UnitOutcome>): (configs: seq<ApiConfig>)
    ensures |configs| == |outcomes|
    ensures forall i :: 0 <= i < |outcomes| ==> configs[i] == outcomes[i].config
  {
    if |outcomes| == 0 then []
    else Configs(outcomes[..|outcomes| - 1]) + [outcomes[|outcomes| - 1].config]
  }

  /** The publication assembled at the barrier. */
  function Publish(t: Target, outcomes: seq<UnitOutcome>): Publication {
    Publication(
      ConfigsFile(t),
      Configs(outcomes),
      SnapshotParameter(t),
      SnapshotOf(outcomes),
      Builds(outcomes))
  }

  /** One manifest entry per unit, in discovery order, carrying this run's
      hash and the manifest's methods. */
  ghost predicate ConfigsPublished(c: Collaborators, walk: seq<Entry>, paths: seq<string>, configs: seq<ApiConfig>) {
    && |configs| == |paths|
    && forall i :: 0 <= i < |paths| ==>
         && configs[i].directory == LowestDirectory(paths[i])
         && UnitHash(c, walk, paths[i]) == Success(configs[i].hash)
         && ReadManifest(c, walk, paths[i]).Success?
         && configs[i].allowedHttpMethods == ReadManifest(c, walk, paths[i]).value.allowedHttpMethods
  }

  /** One snapshot entry per manifest entry, agreeing with it. */
  ghost predicate SnapshotPublished(configs: seq<ApiConfig>, snapshot: Snapshot) {
    && |snapshot| == |configs|
    && (forall k :: k in snapshot <==> exists i :: 0 <= i < |configs| && configs[i].directory == k)
    && (forall i :: 0 <= i < |configs| ==> snapshot[configs[i].directory] == configs[i].hash)
  }

  /** Which manifest paths want a build. */
  ghost function WantedMask(c: Collaborators, rule: KeyRule, prior: Snapshot, walk: seq<Entry>, paths: seq<string>)
    : (m: seq<bool>)
    ensures |m| == |paths|
    ensures forall i :: 0 <= i < |paths| ==> m[i] == BuildWanted(c, rule, prior, walk, paths[i])
  {
    seq(|paths|, i requires 0 <= i < |paths| => BuildWanted(c, rule, prior, walk, paths[i]))
  }

  /** One build for each unit the lookup finds stale and whose manifest says
      "API", in discovery order, and no other; no request twice. */
  ghost predicate BuildsPublished(c: Collaborators, t: Target, rule: KeyRule, prior: Snapshot, walk: seq<Entry>,
                                  paths: seq<string>, builds: seq<BuildRequest>) {
    && |builds| == |Positions(WantedMask(c, rule, prior, walk, paths))|
    && (forall j :: 0 <= j < |builds| ==>
          builds[j] == RequestFor(t, paths[Positions(WantedMask(c, rule, prior, walk, paths))[j]]))
    && (forall j, k :: 0 <= j < k < |builds| ==> builds[j] != builds[k])
    && (forall i :: 0 <= i < |paths| ==> (RequestFor(t, paths[i]) in builds <==> BuildWanted(c, rule, prior, walk, paths[i])))
    && (forall b :: b in builds ==> exists i :: 0 <= i < |paths| && b == RequestFor(t, paths[i]))
  }

  /** What the publication of a successful run promises about the
      discovered manifest paths. */
  ghost predicate Published(c: Collaborators, t: Target, rule: KeyRule, prior: Snapshot, walk: seq<Entry>,
                            paths: seq<string>, pub: Publication)
  {
    && pub.configsFile == ConfigsFile(t)
    && pub.snapshotParameter == SnapshotParameter(t)
    && ConfigsPublished(c, walk, paths, pub.configs)
    && SnapshotPublished(pub.configs, pub.snapshot)
    && BuildsPublished(c, t, rule, prior, walk, paths, pub.builds)
  }

  /** The requested builds, for outcomes with distinct units, each of
      which either requested nothing or requested `requests[i]`, a request
      for its own unit. */
  lemma {:induction false} AggregateFacts(outcomes: seq<UnitOutcome>, requests: seq<BuildRequest>)
    requires |requests| == |outcomes|
    requires forall i, j :: 0 <= i < j < |outcomes| ==> outcomes[i].unit != outcomes[j].unit
    requires forall i :: 0 <= i < |outcomes| ==> requests[i].unit == outcomes[i].unit
    requires forall i :: 0 <= i < |outcomes| && outcomes[i].build.Some? ==> outcomes[i].build.value == requests[i]
    ensures forall i :: 0 <= i < |outcomes| ==> (requests[i] in Builds(outcomes) <==> outcomes[i].build.Some?)
    ensures forall b :: b in Builds(outcomes) ==> exists i :: 0 <= i < |outcomes| && b == requests[i]
  {
    forall i | 0 <= i < |outcomes| && requests[i] in Builds(outcomes)
      ensures outcomes[i].build.Some?
    {
      var j :| 0 <= j < |outcomes| && outcomes[j].build == Some(requests[i]);
      assert outcomes[j].unit == outcomes[i].unit;
    }
  }

  /** The requested builds, in the outcomes' order, under the same
      conditions as `AggregateFacts`: each is the request of its outcome,
      and none appears twice. */
  lemma OrderedBuilds(outcomes: seq<UnitOutcome>, requests: seq<BuildRequest>)
    requires |requests| == |outcomes|
    requires forall i, j :: 0 <= i < j < |outcomes| ==> outcomes[i].unit != outcomes[j].unit
    requires forall i :: 0 <= i < |outcomes| ==> requests[i].unit == outcomes[i].unit
    requires forall i :: 0 <= i < |outcomes| && outcomes[i].build.Some? ==> outcomes[i].build.value == requests[i]
    ensures forall j :: 0 <= j < |Builds(outcomes)| ==> Builds(outcomes)[j] == requests[Positions(BuildMask(outcomes))[j]]
    ensures forall j, k :: 0 <= j < k < |Builds(outcomes)| ==> Builds(outcomes)[j] != Builds(outcomes)[k]
  {
    var builds := Builds(outcomes);
    var idx := Positions(BuildMask(outcomes));
    forall j | 0 <= j < |builds|
      ensures builds[j] == requests[idx[j]] && builds[j].unit == outcomes[idx[j]].unit
    {
      assert outcomes[idx[j]].build == Some(builds[j]);
    }
  }

  /** Each outcome is the unit of its manifest path. */
  lemma OutcomeUnits(c: Collaborators, t: Target, rule: KeyRule, prior: Snapshot, walk: seq<Entry>,
                     paths: seq<string>, outcomes: seq<UnitOutcome>)
    requires |outcomes| == |paths|
    requires forall i :: 0 <= i < |paths| ==> ProcessUnit(c, t, rule, prior, walk, paths[i]) == Success(outcomes[i])
    ensures forall i :: 0 <= i < |paths| ==> outcomes[i].unit == LowestDirectory(paths[i])
  {
  }

  /** Distinct unit names make the outcomes' units distinct. */
  lemma OutcomeUnitsDistinct(paths: seq<string>, outcomes: seq<UnitOutcome>)
    requires DistinctUnits(paths)
    requires |outcomes| == |paths|
    requires forall i :: 0 <= i < |paths| ==> outcomes[i].unit == LowestDirectory(paths[i])
    ensures forall i, j :: 0 <= i < j < |outcomes| ==> outcomes[i].unit != outcomes[j].unit
  {
  }

  lemma ConfigsFacts(c: Collaborators, t: Target, rule: KeyRule, prior: Snapshot, walk: seq<Entry>,
                      paths: seq<string>, outcomes: seq<UnitOutcome>)
    requires |outcomes| == |paths|
    requires forall i :: 0 <= i < |paths| ==> ProcessUnit(c, t, rule, prior, walk, paths[i]) == Success(outcomes[i])
    ensures ConfigsPublished(c, walk, paths, Configs(outcomes))
  {
    var configs := Configs(outcomes);
    forall i | 0 <= i < |paths|
      ensures configs[i].directory == LowestDirectory(paths[i])
      ensures UnitHash(c, walk, paths[i]) == Success(configs[i].hash)
      ensures ReadManifest(c, walk, paths[i]).Success?
      ensures configs[i].allowedHttpMethods == ReadManifest(c, walk, paths[i]).value.allowedHttpMethods
    {
      var r := ProcessUnit(c, t, rule, prior, walk, paths[i]);
      assert r == Success(outcomes[i]);
      assert configs[i] == outcomes[i].config;
    }
  }

  lemma SnapshotFacts(outcomes: seq<UnitOutcome>)
    requires forall i, j :: 0 <= i < j < |outcomes| ==> outcomes[i].unit != outcomes[j].unit
    requires forall i :: 0 <= i < |outcomes| ==> outcomes[i].config.directory == outcomes[i].unit
    requires forall i :: 0 <= i < |outcomes| ==> outcomes[i].config.hash == outcomes[i].hash
    ensures SnapshotPublished(Configs(outcomes), SnapshotOf(outcomes))
  {
    SnapshotOfDistinct(outcomes);
  }

  lemma BuildsFacts(c: Collaborators, t: Target, rule: KeyRule, prior: Snapshot, walk: seq<Entry>,
                    paths: seq<string>, outcomes: seq<UnitOutcome>)
    requires |outcomes| == |paths|
    requires forall i, j :: 0 <= i < j < |outcomes| ==> outcomes[i].unit != outcomes[j].unit
    requires forall i :: 0 <= i < |paths| ==> outcomes[i].unit == LowestDirectory(paths[i])
    requires forall i :: 0 <= i < |paths| ==>
      outcomes[i].build == (if BuildWanted(c, rule, prior, walk, paths[i]) then Some(RequestFor(t, paths[i])) else None)
    ensures BuildsPublished(c, t, rule, prior, walk, paths, Builds(outcomes))
  {
    BuildsOfPaths(paths, outcomes, p => RequestFor(t, p), WantedMask(c, rule, prior, walk, paths));
  }

  /** `AggregateFacts` and `OrderedBuilds` for requests that are functions
      of the manifest path, wished for where `mask` says. */
  lemma BuildsOfPaths(paths: seq<string>, outcomes: seq<UnitOutcome>,
                      request: string -> BuildRequest, mask: seq<bool>)
    requires |outcomes| == |paths| == |mask|
    requires forall i, j :: 0 <= i < j < |outcomes| ==> outcomes[i].unit != outcomes[j].unit
    requires forall i :: 0 <= i < |paths| ==> request(paths[i]).unit == outcomes[i].unit
    requires forall i :: 0 <= i < |paths| ==>
      outcomes[i].build == (if mask[i] then Some(request(paths[i])) else None)
    ensures forall i :: 0 <= i < |paths| ==> (request(paths[i]) in Builds(outcomes) <==> mask[i])
    ensures forall b :: b in Builds(outcomes) ==> exists i :: 0 <= i < |paths| && b == request(paths[i])
    ensures |Builds(outcomes)| == |Positions(mask)|
    ensures forall j :: 0 <= j < |Builds(outcomes)| ==> Builds(outcomes)[j] == request(paths[Positions(mask)[j]])
    ensures forall j, k :: 0 <= j < k < |Builds(outcomes)| ==> Builds(outcomes)[j] != Builds(outcomes)[k]
  {
    var requests := seq(|paths|, i requires 0 <= i < |paths| => request(paths[i]));
    AggregateFacts(outcomes, requests);
    OrderedBuilds(outcomes, requests);
    assert BuildMask(outcomes) == mask;
  }

  /** The build each successful worker reports. */
  lemma UnitBuilds(c: Collaborators, t: Target, rule: KeyRule, prior: Snapshot, walk: seq<Entry>,
                   paths: seq<string>, outcomes: seq<UnitOutcome>)
    requires |outcomes| == |paths|
    requires forall i :: 0 <= i < |paths| ==> ProcessUnit(c, t, rule, prior, walk, paths[i]) == Success(outcomes[i])
    ensures forall i :: 0 <= i < |paths| ==>
      outcomes[i].build == (if BuildWanted(c, rule, prior, walk, paths[i]) then Some(RequestFor(t, paths[i])) else None)
  {
    forall i | 0 <= i < |paths|
      ensures outcomes[i].build == (if BuildWanted(c, rule, prior, walk, paths[i]) then Some(RequestFor(t, paths[i])) else None)
    {
      var r := ProcessUnit(c, t, rule, prior, walk, paths[i]);
      assert r == Success(outcomes[i]);
    }
  }

  lemma PublishFacts(c: Collaborators, t: Target, rule: KeyRule, prior: Snapshot, walk: seq<Entry>,
                     paths: seq<string>, outcomes: seq<UnitOutcome>)
    requires |outcomes| == |paths|
    requires forall i, j :: 0 <= i < j < |outcomes| ==> outcomes[i].unit != outcomes[j].unit
    requires forall i :: 0 <= i < |paths| ==> outcomes[i].unit == LowestDirectory(paths[i])
    requires forall i :: 0 <= i < |paths| ==> ProcessUnit(c, t, rule, prior, walk, paths[i]) == Success(outcomes[i])
    ensures Published(c, t, rule, prior, walk, paths, Publish(t, outcomes))
  {
    ConfigsFacts(c, t, rule, prior, walk, paths, outcomes);
    SnapshotFacts(outcomes);
    UnitBuilds(c, t, rule, prior, walk, paths, outcomes);
    BuildsFacts(c, t, rule, prior, walk, paths, outcomes);
  }

  /** The workers over the discovered manifests, then the barrier: the
      publication, or the failure of the first worker, in discovery order,
      that fails. */
  function Assemble(c: Collaborators, t: Target, rule: KeyRule, prior: Snapshot, walk: seq<Entry>, paths: seq<string>)
    : (r: Result<Publication, Error>)
    ensures r.Success? <==> forall i :: 0 <= i < |paths| ==> ProcessUnit(c, t, rule, prior, walk, paths[i]).Success?
    ensures r.Success? && DistinctUnits(paths) ==> Published(c, t, rule, prior, walk, paths, r.value)
    ensures r.Failure? ==>
      exists i :: 0 <= i < |paths|
        && ProcessUnit(c, t, rule, prior, walk, paths[i]) == Failure(r.error)
        && forall j :: 0 <= j < i ==> ProcessUnit(c, t, rule, prior, walk, paths[j]).Success?
  {
    var fanned := FanOut(p => ProcessUnit(c, t, rule, prior, walk, p), paths);
    assert fanned.Success? <==> forall i :: 0 <= i < |paths| ==> ProcessUnit(c, t, rule, prior, walk, paths[i]).Success?;
    match fanned
    case Failure(e) => Failure(e)
    case Success(outcomes) =>
      assert forall i :: 0 <= i < |paths| ==> ProcessUnit(c, t, rule, prior, walk, paths[i]) == Success(outcomes[i]);
      if DistinctUnits(paths) then
        OutcomeUnits(c, t, rule, prior, walk, paths, outcomes);
        OutcomeUnitsDistinct(paths, outcomes);
        PublishFacts(c, t, rule, prior, walk, paths, outcomes);
        Success(Publish(t, outcomes))
      else
        Success(Publish(t, outcomes))
  }

  /** One run of the deployer against one target. `prior` is the previous
      snapshot; `walk` is the repository. */
  function Deploy(c: Collaborators, t: Target, rule: KeyRule, prior: Snapshot, walk: seq<Entry>)
    : (r: Result<Publication, Error>)
    ensures Discover(ManifestNames(t), walk).Failure? ==> r == Failure(Discover(ManifestNames(t), walk).error)
    ensures Discover(ManifestNames(t), walk).Success? ==>
      var paths := Discover(ManifestNames(t), walk).value;
      && (!DistinctUnits(paths) ==> r.Failure? && ConfirmUniqueNames(paths) == Failure(r.error))
      && (DistinctUnits(paths) ==> r == Assemble(c, t, rule, prior, walk, paths))
    ensures r.Success? <==>
      && Discover(ManifestNames(t), walk).Success?
      && DistinctUnits(Discover(ManifestNames(t), walk).value)
      && forall i :: 0 <= i < |Discover(ManifestNames(t), walk).value| ==>
           ProcessUnit(c, t, rule, prior, walk, Discover(ManifestNames(t), walk).value[i]).Success?
    ensures r.Success? ==> Published(c, t, rule, prior, walk, Discover(ManifestNames(t), walk).value, r.value)
  {
    var paths :- Discover(ManifestNames(t), walk);
    DistinctUnitsIff(paths);
    var _ :- ConfirmUniqueNames(paths);
    Assemble(c, t, rule, prior, walk, paths)
  }

  // ---------------------------------------------------------------------
  // Loading the previous snapshot
  // ---------------------------------------------------------------------

  /** The parameter store's answer to the snapshot read. `Found` carries the
      stored {unit: hash} object decoded into a map; the source decodes it
      into a struct whose only field is a `sync.Map`, which fills nothing. */
  datatype StoreReply = Found(hashes: Snapshot) | StoreError(message: string)

  /** The error text the source treats as "no snapshot yet". */
  const ParameterNotFound: string := "ParameterNotFound: "

  /** The snapshot read as written: any error other than the not-found text
      is fatal, and the decode of a found value sits behind a condition that
      is never true, so the result is always empty. */
  function LoadPriorSnapshotAsWritten(reply: StoreReply): (r: Result<Snapshot, Error>)
    ensures r.Failure? <==> reply.StoreError? && reply.message != ParameterNotFound
    ensures r.Success? ==> r.value == map[]
  {
    if reply.StoreError? && reply.message != ParameterNotFound then Failure(StoreReadFailed(reply.message))
    else Success(map[])
  }

  /** As written, a stored snapshot is never used. */
  lemma AsWrittenDiscardsStoredSnapshot(hashes: Snapshot)
    requires hashes != map[]
    ensures LoadPriorSnapshotAsWritten(Found(hashes)) != Success(hashes)
  {
  }

  /** The snapshot read as intended: a found snapshot is used; "not found"
      means an empty one; any other error is fatal. Besides the inverted
      condition, this needs a `map[string]string` decode target. */
  function LoadPriorSnapshot(reply: StoreReply): (r: Result<Snapshot, Error>)
    ensures reply.Found? ==> r == Success(reply.hashes)
    ensures reply.StoreError? ==> (r.Success? <==> reply.message == ParameterNotFound)
    ensures reply.StoreError? && r.Success? ==> r.value == map[]
    ensures reply.StoreError? && r.Failure? ==> r.error == StoreReadFailed(reply.message)
  {
    match reply
    case Found(hashes) => Success(hashes)
    case StoreError(message) =>
      if message == ParameterNotFound then Success(map[]) else Failure(StoreReadFailed(message))
  }

  // ---------------------------------------------------------------------
  // Re-running on an unchanged repository
  // ---------------------------------------------------------------------

  /** A worker only sees the previous snapshot through its lookup: two
      snapshots that agree on the looked-up key give the same outcome. */
  lemma ProcessUnitDependsOnLookup(c: Collaborators, t: Target, rule: KeyRule, s1: Snapshot, s2: Snapshot,
                                   walk: seq<Entry>, p: string)
    requires UnitHash(c, walk, p).Success?
    requires IsStale(StaleKey(rule, p), UnitHash(c, walk, p).value, s1)
         == IsStale(StaleKey(rule, p), UnitHash(c, walk, p).value, s2)
    ensures ProcessUnit(c, t, rule, s1, walk, p) == ProcessUnit(c, t, rule, s2, walk, p)
  {
  }

  /** Two runs whose workers agree on every discovered manifest agree. */
  lemma DeployCongruent(c: Collaborators, t: Target, rule: KeyRule, s1: Snapshot, s2: Snapshot, walk: seq<Entry>)
    requires Discover(ManifestNames(t), walk).Success? ==>
      forall i :: 0 <= i < |Discover(ManifestNames(t), walk).value| ==>
        ProcessUnit(c, t, rule, s1, walk, Discover(ManifestNames(t), walk).value[i])
        == ProcessUnit(c, t, rule, s2, walk, Discover(ManifestNames(t), walk).value[i])
    ensures Deploy(c, t, rule, s1, walk) == Deploy(c, t, rule, s2, walk)
  {
    if Discover(ManifestNames(t), walk).Success? {
      AssembleCongruent(c, t, rule, s1, s2, walk, Discover(ManifestNames(t), walk).value);
    }
  }

  lemma AssembleCongruent(c: Collaborators, t: Target, rule: KeyRule, s1: Snapshot, s2: Snapshot, walk: seq<Entry>,
                          paths: seq<string>)
    requires forall i :: 0 <= i < |paths| ==>
      ProcessUnit(c, t, rule, s1, walk, paths[i]) == ProcessUnit(c, t, rule, s2, walk, paths[i])
    ensures Assemble(c, t, rule, s1, walk, paths) == Assemble(c, t, rule, s2, walk, paths)
  {
    FanOutCongruent(p => ProcessUnit(c, t, rule, s1, walk, p), p => ProcessUnit(c, t, rule, s2, walk, p), paths);
  }

  /** The published manifest entries are determined by the repository. */
  lemma ConfigsDetermined(c: Collaborators, walk: seq<Entry>, paths: seq<string>, a: seq<ApiConfig>, b: seq<ApiConfig>)
    requires ConfigsPublished(c, walk, paths, a) && ConfigsPublished(c, walk, paths, b)
    ensures a == b
  {
    forall i | 0 <= i < |a|
      ensures a[i] == b[i]
    {
      assert UnitHash(c, walk, paths[i]).value == a[i].hash == b[i].hash;
    }
  }

  /** The published snapshot is determined by the manifest entries. */
  lemma SnapshotDetermined(configs: seq<ApiConfig>, s1: Snapshot, s2: Snapshot)
    requires SnapshotPublished(configs, s1) && SnapshotPublished(configs, s2)
    ensures s1 == s2
  {
    forall k | k in s1
      ensures k in s2 && s1[k] == s2[k]
    {
      var i :| 0 <= i < |configs| && configs[i].directory == k;
    }
  }

  lemma HeadIsMember<T>(s: seq<T>)
    ensures |s| > 0 ==> s[0] in s
  {
  }

  /** No unit wanting a build means no build ran. */
  lemma NoBuildsWanted(c: Collaborators, t: Target, rule: KeyRule, prior: Snapshot, walk: seq<Entry>,
                       paths: seq<string>, builds: seq<BuildRequest>)
    requires BuildsPublished(c, t, rule, prior, walk, paths, builds)
    requires forall i :: 0 <= i < |paths| ==> !BuildWanted(c, rule, prior, walk, paths[i])
    ensures builds == []
  {
    HeadIsMember(builds);
  }

  /** A unit whose hash the snapshot already holds under its name is not
      built, and its worker cannot fail. */
  lemma QuietUnit(c: Collaborators, t: Target, s: Snapshot, walk: seq<Entry>, p: string, hash: string)
    requires UnitHash(c, walk, p) == Success(hash)
    requires ReadManifest(c, walk, p).Success?
    requires LowestDirectory(p) in s && s[LowestDirectory(p)] == hash
    ensures !BuildWanted(c, UnitIdentity, s, walk, p)
    ensures ProcessUnit(c, t, UnitIdentity, s, walk, p).Success?
  {
    assert StaleKey(UnitIdentity, p) == LowestDirectory(p);
    assert !IsStale(LowestDirectory(p), hash, s);
  }

  /** Every discovered path carries a manifest name. */
  lemma DiscoveredAreManifests(names: set<string>, walk: seq<Entry>, p: string)
    requires Discover(names, walk).Success?
    requires p in Discover(names, walk).value
    ensures Base(p) in names
  {
  }

  /** A key that no manifest entry carries is not in the published snapshot. */
  lemma NotPublishedKey(configs: seq<ApiConfig>, snapshot: Snapshot, k: string)
    requires SnapshotPublished(configs, snapshot)
    requires forall i :: 0 <= i < |configs| ==> configs[i].directory != k
    ensures k !in snapshot
  {
  }

  /** With an empty previous snapshot every unit is stale, so a successful
      run builds exactly the API units. */
  lemma EmptySnapshotBuildsEveryApiUnit(c: Collaborators, t: Target, rule: KeyRule, walk: seq<Entry>)
    requires Deploy(c, t, rule, map[], walk).Success?
    ensures var paths := Discover(ManifestNames(t), walk).value;
            forall i :: 0 <= i < |paths| ==>
              && ReadManifest(c, walk, paths[i]).Success?
              && (RequestFor(t, paths[i]) in Deploy(c, t, rule, map[], walk).value.builds
                  <==> Classify(ReadManifest(c, walk, paths[i]).value) == BuildableService)
  {
    var paths := Discover(ManifestNames(t), walk).value;
    var pub := Deploy(c, t, rule, map[], walk).value;
    assert ConfigsPublished(c, walk, paths, pub.configs);
    assert BuildsPublished(c, t, rule, map[], walk, paths, pub.builds);
  }

  /** `checkIfApiConfigType` decides the build of a stale unit: it is built
      exactly when its manifest's `type` is the text "API", matched
      exactly. */
  lemma ApiTypeDecidesBuild(c: Collaborators, rule: KeyRule, prior: Snapshot, walk: seq<Entry>, p: string)
    requires UnitHash(c, walk, p).Success? && ReadManifest(c, walk, p).Success?
    requires IsStale(StaleKey(rule, p), UnitHash(c, walk, p).value, prior)
    ensures BuildWanted(c, rule, prior, walk, p) <==> ReadManifest(c, walk, p).value.configType == "API"
  {
  }

  /** The entries a successful run publishes are `generateApiConfig`'s, one
      per discovered manifest in discovery order, and no two name the same
      unit. */
  lemma PublishedEntriesAreGenerated(c: Collaborators, t: Target, rule: KeyRule, prior: Snapshot, walk: seq<Entry>,
                                     paths: seq<string>, pub: Publication)
    requires Deploy(c, t, rule, prior, walk) == Success(pub)
    requires Discover(ManifestNames(t), walk) == Success(paths)
    ensures |pub.configs| == |paths|
    ensures forall i :: 0 <= i < |paths| ==>
      && UnitHash(c, walk, paths[i]).Success?
      && ReadManifest(c, walk, paths[i]).Success?
      && pub.configs[i] == GenerateApiConfig(paths[i], UnitHash(c, walk, paths[i]).value,
                                             ReadManifest(c, walk, paths[i]).value)
    ensures forall i, j :: 0 <= i < j < |pub.configs| ==> pub.configs[i].directory != pub.configs[j].directory
  {
    assert ConfigsPublished(c, walk, paths, pub.configs);
    assert DistinctUnits(paths);
  }

  /** As written, a run that starts from the snapshot the previous run
      published behaves exactly like a first-ever run, as long as no unit
      directory is itself named like a manifest file; so, by
      `EmptySnapshotBuildsEveryApiUnit`, every API unit is rebuilt although
      nothing changed. */
  lemma RerunAsWrittenIgnoresSnapshot(c: Collaborators, t: Target, prior: Snapshot, walk: seq<Entry>)
    requires Deploy(c, t, ManifestName, prior, walk).Success?
    requires forall cfg :: cfg in Deploy(c, t, ManifestName, prior, walk).value.configs ==> cfg.directory !in ManifestNames(t)
    ensures Deploy(c, t, ManifestName, Deploy(c, t, ManifestName, prior, walk).value.snapshot, walk)
         == Deploy(c, t, ManifestName, map[], walk)
  {
    var first := Deploy(c, t, ManifestName, prior, walk).value;
    var paths := Discover(ManifestNames(t), walk).value;
    assert ConfigsPublished(c, walk, paths, first.configs);
    assert SnapshotPublished(first.configs, first.snapshot);
    forall i | 0 <= i < |paths|
      ensures ProcessUnit(c, t, ManifestName, first.snapshot, walk, paths[i])
           == ProcessUnit(c, t, ManifestName, map[], walk, paths[i])
    {
      DiscoveredAreManifests(ManifestNames(t), walk, paths[i]);
      forall j | 0 <= j < |first.configs|
        ensures first.configs[j].directory != Base(paths[i])
      {
        assert first.configs[j] in first.configs;
      }
      NotPublishedKey(first.configs, first.snapshot, Base(paths[i]));
      ProcessUnitDependsOnLookup(c, t, ManifestName, first.snapshot, map[], walk, paths[i]);
    }
    DeployCongruent(c, t, ManifestName, first.snapshot, map[], walk);
  }

  /** As intended, a run that starts from the snapshot the previous run
      published, read back through the store, builds nothing when the
      repository has not changed, and publishes the same entries and
      snapshot again. */
  lemma RerunIsQuiet(c: Collaborators, t: Target, prior: Snapshot, walk: seq<Entry>)
    requires Deploy(c, t, UnitIdentity, prior, walk).Success?
    ensures var first := Deploy(c, t, UnitIdentity, prior, walk).value;
            var loaded := LoadPriorSnapshot(Found(first.snapshot));
            var rerun := Deploy(c, t, UnitIdentity, loaded.value, walk);
            && loaded.Success?
            && rerun.Success?
            && rerun.value.builds == []
            && rerun.value.configs == first.configs
            && rerun.value.snapshot == first.snapshot
  {
    var first := Deploy(c, t, UnitIdentity, prior, walk).value;
    var paths := Discover(ManifestNames(t), walk).value;
    assert ConfigsPublished(c, walk, paths, first.configs);
    assert SnapshotPublished(first.configs, first.snapshot);
    forall i | 0 <= i < |paths|
      ensures !BuildWanted(c, UnitIdentity, first.snapshot, walk, paths[i])
      ensures ProcessUnit(c, t, UnitIdentity, first.snapshot, walk, paths[i]).Success?
    {
      QuietUnit(c, t, first.snapshot, walk, paths[i], first.configs[i].hash);
    }
    var rerun := Deploy(c, t, UnitIdentity, first.snapshot, walk);
    assert rerun.Success?;
    ConfigsDetermined(c, walk, paths, rerun.value.configs, first.configs);
    SnapshotDetermined(first.configs, rerun.value.snapshot, first.snapshot);
    NoBuildsWanted(c, t, UnitIdentity, first.snapshot, walk, paths, rerun.value.builds);
  }
}
