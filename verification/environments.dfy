/** `determineWhatNeedsDeploying`: which environments need a deployment,
    given the version each should run and the version each already runs.
    Go ranges over a map in an unspecified order; the order is a parameter
    here, and the result does not depend on it. A nil map is an empty one. */
module Environments {

  /** The version that is deployed on every run. */
  const Latest: string := "latest"

  /** Whether environment `k`, wanted at version `want[k]`, must be deployed. */
  predicate NeedsDeployment(already: map<string, string>, want: map<string, string>, k: string)
    requires k in want
  {
    want[k] == Latest || k !in already || already[k] != want[k]
  }

  /** The loop of `determineWhatNeedsDeploying` after visiting the keys of
      `order`, one at a time, from left to right. */
  function DiffOver(already: map<string, string>, want: map<string, string>, order: seq<string>)
    : (diff: map<string, string>)
    requires forall j :: 0 <= j < |order| ==> order[j] in want
    ensures forall k :: k in diff ==> k in order && k in want && diff[k] == want[k]
    ensures forall k :: k in order ==> (k in diff <==> NeedsDeployment(already, want, k))
  {
    if |order| == 0 then map[]
    else
      var k := order[|order| - 1];
      var visited := DiffOver(already, want, order[..|order| - 1]);
      assert forall x :: x in order <==> x in order[..|order| - 1] || x == k;
      if want[k] == Latest then visited[k := want[k]]
      else if k !in already || already[k] != want[k] then visited[k := want[k]]
      else visited
  }

  /** `determineWhatNeedsDeploying(alreadyDeployed, wantDeployed)`, its loop
      visiting the keys of `wantDeployed` in the order `order`. */
  function DetermineWhatNeedsDeploying(already: map<string, string>, want: map<string, string>, order: seq<string>)
    : (diff: map<string, string>)
    requires forall k :: k in want <==> k in order
    ensures diff.Keys <= want.Keys
    ensures forall k :: k in diff ==> diff[k] == want[k]
    ensures forall k :: k in want ==> (k in diff <==> NeedsDeployment(already, want, k))
  {
    DiffOver(already, want, order)
  }

  // ---------------------------------------------------------------------
  // Lemmas
  // ---------------------------------------------------------------------

  /** Go's random map order does not show in the result. */
  lemma IterationOrderIrrelevant(already: map<string, string>, want: map<string, string>,
                                 o1: seq<string>, o2: seq<string>)
    requires forall k :: k in want <==> k in o1
    requires forall k :: k in want <==> k in o2
    ensures DetermineWhatNeedsDeploying(already, want, o1) == DetermineWhatNeedsDeploying(already, want, o2)
  {
    var d1, d2 := DetermineWhatNeedsDeploying(already, want, o1), DetermineWhatNeedsDeploying(already, want, o2);
    assert d1.Keys == d2.Keys;
  }

  /** An entry at "latest" is deployed even when it is already deployed at "latest". */
  lemma LatestAlwaysDeployed(already: map<string, string>, want: map<string, string>, order: seq<string>, k: string)
    requires forall x :: x in want <==> x in order
    requires k in want && want[k] == Latest
    ensures k in DetermineWhatNeedsDeploying(already, want, order)
    ensures DetermineWhatNeedsDeploying(already, want, order)[k] == Latest
  {
  }

  /** Nothing wanted: nothing to deploy. Nothing deployed yet: everything wanted. */
  lemma DiffEdgeCases(already: map<string, string>, want: map<string, string>, order: seq<string>)
    requires forall x :: x in want <==> x in order
    ensures want == map[] ==> DetermineWhatNeedsDeploying(already, want, order) == map[]
    ensures already == map[] ==> DetermineWhatNeedsDeploying(already, want, order) == want
  {
    var d := DetermineWhatNeedsDeploying(already, want, order);
    if already == map[] {
      assert d.Keys == want.Keys;
    }
  }

  /** Test case: same keys, some versions changed; for every order in which
      the loop may visit them. */
  lemma DiffExampleChangedVersions(order: seq<string>)
    requires forall k :: k in order <==> k == "staging" || k == "dev" || k == "production"
    ensures DetermineWhatNeedsDeploying(map["staging" := "v0.0.4", "dev" := "v0.0.4", "production" := "v0.0.5"],
                                        map["staging" := "v0.0.4", "dev" := "v0.0.3", "production" := "v0.0.3"],
                                        order)
         == map["dev" := "v0.0.3", "production" := "v0.0.3"]
  {
    var already := map["staging" := "v0.0.4", "dev" := "v0.0.4", "production" := "v0.0.5"];
    var want := map["staging" := "v0.0.4", "dev" := "v0.0.3", "production" := "v0.0.3"];
    var d := DetermineWhatNeedsDeploying(already, want, order);
    assert NeedsDeployment(already, want, "dev") && NeedsDeployment(already, want, "production");
    assert !NeedsDeployment(already, want, "staging");
    assert d.Keys == {"dev", "production"};
  }

  /** Test case: an environment wanted at "latest" is kept although it is
      already deployed at "latest"; for every visiting order. */
  lemma DiffExampleLatest(order: seq<string>)
    requires forall k :: k in order <==> k == "staging" || k == "dev" || k == "production"
    ensures DetermineWhatNeedsDeploying(map["staging" := "latest", "dev" := "v0.0.3", "production" := "v0.0.3"],
                                        map["staging" := "latest", "dev" := "v0.0.3", "production" := "v0.0.3"],
                                        order)
         == map["staging" := "latest"]
  {
    var already := map["staging" := "latest", "dev" := "v0.0.3", "production" := "v0.0.3"];
    var d := DetermineWhatNeedsDeploying(already, already, order);
    assert NeedsDeployment(already, already, "staging");
    assert !NeedsDeployment(already, already, "dev") && !NeedsDeployment(already, already, "production");
    assert d.Keys == {"staging"};
  }

  /** Test case: a new key and a changed version; for every visiting order. */
  lemma DiffExampleNewKey(order: seq<string>)
    requires forall k :: k in order <==> k == "staging" || k == "dev" || k == "qa"
    ensures DetermineWhatNeedsDeploying(map["staging" := "v0.0.4", "dev" := "v0.0.4", "production" := "v0.0.5"],
                                        map["staging" := "v0.0.4", "dev" := "v0.0.5", "qa" := "v0.0.5"],
                                        order)
         == map["dev" := "v0.0.5", "qa" := "v0.0.5"]
  {
    var already := map["staging" := "v0.0.4", "dev" := "v0.0.4", "production" := "v0.0.5"];
    var want := map["staging" := "v0.0.4", "dev" := "v0.0.5", "qa" := "v0.0.5"];
    var d := DetermineWhatNeedsDeploying(already, want, order);
    assert NeedsDeployment(already, want, "dev") && NeedsDeployment(already, want, "qa");
    assert !NeedsDeployment(already, want, "staging");
    assert d.Keys == {"dev", "qa"};
  }
}
