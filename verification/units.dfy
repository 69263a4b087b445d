/** Deployable units: discovery of manifest files, unit identity and its
    uniqueness, the manifest record, the API classifier and the staleness
    check. */
module Units {
  import opened Results
  import opened Failures
  import opened Paths
  import opened FileTree

  /** The fields of a decoded manifest that the deployer reads. A field the
      file lacks decodes to Go's zero value: "" or an empty list. */
  datatype Manifest = Manifest(configType: string, allowedHttpMethods: seq<string>)

  /** One element of the artifact-configuration output (`ApiConfig`). */
  datatype ApiConfig = ApiConfig(directory: string, allowedHttpMethods: seq<string>, hash: string)

  /** What a unit is: an API unit is built into an artifact; for every other
      kind the source has only a to-do. */
  datatype Kind = BuildableService | StaticAsset

  /** The `type` value that marks an API unit. */
  const ApiType: string := "API"

  /** Unit identity to content hash: the previous or the new snapshot. */
  type Snapshot = map<string, string>

  /** `checkIfApiConfigType`: the unit's kind from its manifest's `type`. */
  function Classify(m: Manifest): Kind {
    if m.configType == ApiType then BuildableService else StaticAsset
  }

  /** `generateApiConfig`: the manifest entry of the unit whose manifest is at
      `path`, carrying the hash computed this run. */
  function GenerateApiConfig(path: string, hash: string, m: Manifest): ApiConfig {
    ApiConfig(LowestDirectory(path), m.allowedHttpMethods, hash)
  }

  // ---------------------------------------------------------------------
  // Staleness
  // ---------------------------------------------------------------------

  /** `areDirectoryContentsDirty` once its lookup key is chosen: a unit is
      stale unless the previous snapshot holds exactly this hash under `key`. */
  function IsStale(key: string, hash: string, prior: Snapshot): bool {
    key !in prior || prior[key] != hash
  }

  /** `areDirectoryContentsDirty(p, hash, prior)` as written: the lookup key
      is the last element of `p`. */
  function AreDirectoryContentsDirty(p: string, hash: string, prior: Snapshot): (dirty: bool)
    ensures !dirty <==> Base(p) in prior && prior[Base(p)] == hash
  {
    IsStale(Base(p), hash, prior)
  }

  /** The four cases of the Go tests: an empty snapshot, a snapshot with
      another key, a different hash, and an exact match. */
  lemma DirtyExamples()
    ensures AreDirectoryContentsDirty("/test/me/over/register", "P5o5JJ0-P", map[])
    ensures AreDirectoryContentsDirty("/test/me/over/register", "P5o5JJ0-P", map["login" := "P5o5JJ0-P"])
    ensures AreDirectoryContentsDirty("/test/me/over/register", "P5o5JJ0-P", map["register" := "JGwSCYhNf"])
    ensures !AreDirectoryContentsDirty("/test/me/over/register", "P5o5JJ0-P", map["register" := "P5o5JJ0-P"])
  {
    RegisterPathBase();
  }

  /** The last element of the path of `DirtyExamples`. */
  lemma RegisterPathBase()
    ensures Base("/test/me/over/register") == "register"
  {
    var p := ["test", "me", "over", "register"];
    RegisterPathAbsolute();
    assert forall j :: 0 <= j < |p| ==> NormalElement(p[j]);
    BaseOfAbsolute(p);
  }

  lemma RegisterPathAbsolute()
    ensures Absolute(["test", "me", "over", "register"]) == "/test/me/over/register"
  {
    var p := ["test", "me", "over", "register"];
    JoinCons(p[0], p[1..]);
    JoinCons(p[1], p[2..]);
    JoinCons(p[2], p[3..]);
    assert p[1..] == [p[1]] + p[2..] && p[2..] == [p[2]] + p[3..] && p == [p[0]] + p[1..];
    assert "/" + p[0] + "/" + p[1] == "/test/me";
    assert "/test/me" + "/" + p[2] == "/test/me/over";
    assert "/test/me/over" + "/" + p[3] == "/test/me/over/register";
  }

  // ---------------------------------------------------------------------
  // Identity and uniqueness
  // ---------------------------------------------------------------------

  /** The unit names of the manifest paths, in order. */
  function UnitNames(paths: seq<string>): (names: seq<string>)
    ensures |names| == |paths|
    ensures forall i :: 0 <= i < |paths| ==> names[i] == LowestDirectory(paths[i])
  {
    if |paths| == 0 then []
    else UnitNames(paths[..|paths| - 1]) + [LowestDirectory(paths[|paths| - 1])]
  }

  predicate Distinct(s: seq<string>) {
    forall i, j :: 0 <= i < j < |s| ==> s[i] != s[j]
  }

  /** The loop of `confirmUniqueNameOfDeploymentDirectories`, entered with
      the names in `seen` already recorded: the position of the first name
      seen before, if any. */
  function FirstRepeat(names: seq<string>, seen: set<string>): (r: Option<nat>)
    ensures r.None? <==> Distinct(names) && forall i :: 0 <= i < |names| ==> names[i] !in seen
    ensures r.Some? ==>
      && r.value < |names|
      && (names[r.value] in seen || names[r.value] in names[..r.value])
      && Distinct(names[..r.value])
      && forall i :: 0 <= i < r.value ==> names[i] !in seen
  {
    if |names| == 0 then None
    else if names[0] in seen then Some(0)
    else
      var rest := names[1..];
      assert forall i :: 1 <= i < |names| ==> names[i] == rest[i - 1];
      match FirstRepeat(rest, seen + {names[0]})
      case None => None
      case Some(j) =>
        assert names[..j + 1] == [names[0]] + rest[..j];
        Some(j + 1)
  }

  /** No two of the manifest paths name the same unit. */
  predicate DistinctUnits(paths: seq<string>) {
    forall i, j :: 0 <= i < j < |paths| ==> LowestDirectory(paths[i]) != LowestDirectory(paths[j])
  }

  /** `confirmUniqueNameOfDeploymentDirectories`: succeeds exactly when no two
      manifests share a unit name, and otherwise names the first unit name,
      in list order, that repeats an earlier one. */
  function ConfirmUniqueNames(paths: seq<string>): (r: Result<(), Error>)
    ensures r.Success? <==> Distinct(UnitNames(paths))
    ensures r.Failure? ==>
      exists j :: 0 <= j < |paths|
        && r.error == DuplicateUnit(LowestDirectory(paths[j]))
        && LowestDirectory(paths[j]) in UnitNames(paths)[..j]
        && Distinct(UnitNames(paths)[..j])
  {
    var names := UnitNames(paths);
    match FirstRepeat(names, {})
    case None => Success(())
    case Some(j) => Failure(DuplicateUnit(names[j]))
  }

  /** Distinct unit names, stated on the paths. */
  lemma DistinctUnitsIff(paths: seq<string>)
    ensures Distinct(UnitNames(paths)) <==> DistinctUnits(paths)
  {
    var names := UnitNames(paths);
    if Distinct(names) {
      forall i, j | 0 <= i < j < |paths|
        ensures LowestDirectory(paths[i]) != LowestDirectory(paths[j])
      {
        assert names[i] != names[j];
      }
    }
    if DistinctUnits(paths) {
      forall i, j | 0 <= i < j < |names|
        ensures names[i] != names[j]
      {
        assert LowestDirectory(paths[i]) != LowestDirectory(paths[j]);
      }
    }
  }

  /** The unit name of "/home/of/the/<dir>/deployment_config.json", the
      shape of the paths in the Go tests. */
  lemma TestPathUnitName(path: string, dir: string)
    requires path == "/home/of/the/" + dir + "/deployment_config.json"
    requires NormalElement(dir)
    ensures LowestDirectory(path) == dir
  {
    var p := ["home", "of", "the", dir, "deployment_config.json"];
    assert "/" + p[0] + "/" + p[1] + "/" + p[2] == "/home/of/the";
    assert "/home/of/the" + "/" + p[3] + "/" + p[4] == path;
    LowestDirectoryOfFive(p);
  }

  /** The unit names of three test paths. */
  lemma TestPathsUnitNames(paths: seq<string>, d0: string, d1: string, d2: string)
    requires NormalElement(d0) && NormalElement(d1) && NormalElement(d2)
    requires paths == ["/home/of/the/" + d0 + "/deployment_config.json",
                       "/home/of/the/" + d1 + "/deployment_config.json",
                       "/home/of/the/" + d2 + "/deployment_config.json"]
    ensures |UnitNames(paths)| == 3
    ensures UnitNames(paths)[0] == d0 && UnitNames(paths)[1] == d1 && UnitNames(paths)[2] == d2
  {
    TestPathUnitName(paths[0], d0);
    TestPathUnitName(paths[1], d1);
    TestPathUnitName(paths[2], d2);
  }

  /** The first case of the Go tests ("enchiladas", "burritos",
      "watermelon"), for any three distinct directory names: it passes. */
  lemma UniquenessExampleDistinct(d0: string, d1: string, d2: string)
    requires NormalElement(d0) && NormalElement(d1) && NormalElement(d2)
    requires d0 != d1 && d1 != d2 && d0 != d2
    ensures ConfirmUniqueNames(["/home/of/the/" + d0 + "/deployment_config.json",
                                "/home/of/the/" + d1 + "/deployment_config.json",
                                "/home/of/the/" + d2 + "/deployment_config.json"]).Success?
  {
    var paths := ["/home/of/the/" + d0 + "/deployment_config.json",
                  "/home/of/the/" + d1 + "/deployment_config.json",
                  "/home/of/the/" + d2 + "/deployment_config.json"];
    TestPathsUnitNames(paths, d0, d1, d2);
    DistinctThree(d0, d1, d2);
  }

  lemma DistinctThree(a: string, b: string, c: string)
    requires a != b && b != c && a != c
    ensures Distinct([a, b, c])
  {
  }

  /** The second case of the Go tests ("enchiladas", then "burritos" twice),
      for any two distinct directory names: it fails, naming the repeated one. */
  lemma UniquenessExampleDuplicate(d0: string, d1: string)
    requires NormalElement(d0) && NormalElement(d1) && d0 != d1
    ensures ConfirmUniqueNames(["/home/of/the/" + d0 + "/deployment_config.json",
                                "/home/of/the/" + d1 + "/deployment_config.json",
                                "/home/of/the/" + d1 + "/deployment_config.json"])
         == Failure(DuplicateUnit(d1))
  {
    var paths := ["/home/of/the/" + d0 + "/deployment_config.json",
                  "/home/of/the/" + d1 + "/deployment_config.json",
                  "/home/of/the/" + d1 + "/deployment_config.json"];
    TestPathsUnitNames(paths, d0, d1, d1);
    var names := UnitNames(paths);
    assert !Distinct(names) by {
      assert names[1] == names[2];
    }
    var j :| 0 <= j < 3 && ConfirmUniqueNames(paths).error == DuplicateUnit(LowestDirectory(paths[j]))
             && LowestDirectory(paths[j]) in names[..j] && Distinct(names[..j]);
    assert j == 2;
  }

  // ---------------------------------------------------------------------
  // Discovery
  // ---------------------------------------------------------------------

  /** An entry that declares a unit: a non-directory whose name is one of
      the manifest names. */
  predicate IsManifest(names: set<string>, e: Entry) {
    (e.kind.File? || e.kind.Unopenable?) && Base(e.path) in names
  }

  /** No entry of the walk reports an error. */
  predicate WalkClean(walk: seq<Entry>) {
    forall i :: 0 <= i < |walk| ==> !walk[i].kind.WalkError?
  }

  /** Which entries of the walk declare a unit. */
  function ManifestMask(names: set<string>, walk: seq<Entry>): (m: seq<bool>)
    ensures |m| == |walk|
    ensures forall i :: 0 <= i < |walk| ==> m[i] == IsManifest(names, walk[i])
  {
    seq(|walk|, i requires 0 <= i < |walk| => IsManifest(names, walk[i]))
  }

  /** The callback of the discovery walk, over the whole walk: the manifest
      paths in walk order, one per manifest entry, or the error of the first
      failing entry. */
  function CollectManifests(names: set<string>, walk: seq<Entry>): (r: Result<seq<string>, Error>)
    ensures r.Success? <==> WalkClean(walk)
    ensures r.Success? ==>
      && |r.value| == |Positions(ManifestMask(names, walk))|
      && forall j :: 0 <= j < |r.value| ==> r.value[j] == walk[Positions(ManifestMask(names, walk))[j]].path
    ensures r.Success? ==>
      forall p :: p in r.value <==> exists i :: 0 <= i < |walk| && IsManifest(names, walk[i]) && walk[i].path == p
    ensures r.Failure? ==>
      exists i :: 0 <= i < |walk| && walk[i].kind.WalkError? && WalkClean(walk[..i]) && r.error == WalkFailed(walk[i].path)
  {
    if |walk| == 0 then Success([])
    else
      var e := walk[0];
      assert forall i :: 1 <= i < |walk| ==> walk[i] == walk[1..][i - 1];
      assert forall i :: 1 <= i <= |walk| ==> walk[..i] == [e] + walk[1..][..i - 1];
      if e.kind.WalkError? then assert walk[..0] == []; Failure(WalkFailed(e.path))
      else
        var rest :- CollectManifests(names, walk[1..]);
        CollectStep(names, walk, rest);
        if IsManifest(names, e) then Success([e.path] + rest) else Success(rest)
  }

  /** One step of `CollectManifests`: the manifest paths of `walk[1..]`,
      placed at their positions in `walk`. */
  lemma CollectStep(names: set<string>, walk: seq<Entry>, rest: seq<string>)
    requires |walk| > 0
    requires |rest| == |Positions(ManifestMask(names, walk[1..]))|
    requires forall j :: 0 <= j < |rest| ==> rest[j] == walk[1..][Positions(ManifestMask(names, walk[1..]))[j]].path
    ensures var idx := Positions(ManifestMask(names, walk));
      var found := if IsManifest(names, walk[0]) then [walk[0].path] + rest else rest;
      |found| == |idx| && forall j :: 0 <= j < |found| ==> found[j] == walk[idx[j]].path
  {
    var m := ManifestMask(names, walk);
    assert m[1..] == ManifestMask(names, walk[1..]);
    SelectStep(m, walk, (e: Entry) => e.path, rest);
  }

  /** Discovery: every file of the repository carrying a manifest name; a
      failing walk or an empty result stops the run. */
  function Discover(names: set<string>, walk: seq<Entry>): (r: Result<seq<string>, Error>)
    ensures r.Success? <==> WalkClean(walk) && exists i :: 0 <= i < |walk| && IsManifest(names, walk[i])
    ensures r.Success? ==> |r.value| > 0
    ensures r.Success? ==>
      && |r.value| == |Positions(ManifestMask(names, walk))|
      && forall j :: 0 <= j < |r.value| ==> r.value[j] == walk[Positions(ManifestMask(names, walk))[j]].path
    ensures r.Success? ==>
      forall p :: p in r.value <==> exists i :: 0 <= i < |walk| && IsManifest(names, walk[i]) && walk[i].path == p
    ensures r.Failure? && WalkClean(walk) ==> r.error == NoManifests
    ensures r.Failure? && !WalkClean(walk) ==>
      exists i :: 0 <= i < |walk| && walk[i].kind.WalkError? && WalkClean(walk[..i]) && r.error == WalkFailed(walk[i].path)
  {
    var found :- CollectManifests(names, walk);
    if |found| == 0 then
      assert forall i :: 0 <= i < |walk| ==> walk[i].path !in found;
      Failure(NoManifests)
    else
      assert found[0] in found;
      Success(found)
  }
}
