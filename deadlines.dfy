/**
 * Deadline resolution: which deployments of the cluster belong to the current
 * run in the target namespace, and how long the checker waits for each one.
 * Durations are whole seconds.
 */
module Deadlines {
  import opened Wrappers

  /** The label key under which every resource of a run carries the run identifier. */
  const RUN_ID_LABEL := "skaffold.dev/run-id"

  /** A deployment as listed from the cluster; `progressDeadlineSeconds` is `spec.progressDeadlineSeconds`, possibly unset. */
  datatype Deployment = Deployment(
    name: string,
    namespace: string,
    labels: map<string, string>,
    progressDeadlineSeconds: Option<int>)

  /** What the cluster listing produced: the deployments, or the error that stopped it. */
  datatype Listing = Listed(items: seq<Deployment>) | ListFailed(cause: string)

  /** The deployment lives in `ns` and its run-id label names the current run. */
  predicate BelongsToRun(d: Deployment, ns: string, runId: string) {
    d.namespace == ns && RUN_ID_LABEL in d.labels && d.labels[RUN_ID_LABEL] == runId
  }

  /**
   * The deadline the checker applies to one deployment: the smaller of its own
   * progress deadline and the default; the default when it declares none.
   */
  function EffectiveDeadline(d: Deployment, default: int): (r: int)
    ensures r <= default
    ensures d.progressDeadlineSeconds.None? ==> r == default
    ensures d.progressDeadlineSeconds.Some? ==>
      r <= d.progressDeadlineSeconds.value &&
      (r == d.progressDeadlineSeconds.value || r == default)
  {
    match d.progressDeadlineSeconds
    case None => default
    case Some(declared) => if declared < default then declared else default
  }

  /**
   * The deadline map built from the listed deployments, in listing order: each
   * deployment of the run is entered under its name, a later entry replacing an
   * earlier one of the same name.
   */
  function ResolveDeadlines(deps: seq<Deployment>, ns: string, runId: string, default: int): (m: map<string, int>)
    ensures m.Keys == set d | d in deps && BelongsToRun(d, ns, runId) :: d.name
    ensures forall n :: n in m ==> m[n] <= default
    decreases |deps|
  {
    if deps == [] then map[]
    else
      var earlier := ResolveDeadlines(deps[..|deps| - 1], ns, runId, default);
      var d := deps[|deps| - 1];
      assert deps == deps[..|deps| - 1] + [d];
      if BelongsToRun(d, ns, runId) then earlier[d.name := EffectiveDeadline(d, default)] else earlier
  }

  /** getDeployments: list the deployments, then resolve their deadlines; a listing error is passed on. */
  function GetDeployments(listing: Listing, ns: string, runId: string, default: int): (r: Result<map<string, int>, string>)
    ensures r.Failure? <==> listing.ListFailed?
    ensures r.Failure? ==> r.error == listing.cause
    ensures r.Success? ==> r.value == ResolveDeadlines(listing.items, ns, runId, default)
  {
    match listing
    case ListFailed(cause) => Failure(cause)
    case Listed(items) => Success(ResolveDeadlines(items, ns, runId, default))
  }

  /** Every entry of the map is the effective deadline of some deployment of the run with that name. */
  lemma {:induction false} EntryComesFromRun(deps: seq<Deployment>, ns: string, runId: string, default: int, n: string)
    requires n in ResolveDeadlines(deps, ns, runId, default)
    ensures exists d :: (d in deps && BelongsToRun(d, ns, runId) && d.name == n &&
      ResolveDeadlines(deps, ns, runId, default)[n] == EffectiveDeadline(d, default))
    decreases |deps|
  {
    var front, d := deps[..|deps| - 1], deps[|deps| - 1];
    if !(BelongsToRun(d, ns, runId) && d.name == n) {
      EntryComesFromRun(front, ns, runId, default, n);
      var e :| e in front && BelongsToRun(e, ns, runId) && e.name == n &&
        ResolveDeadlines(front, ns, runId, default)[n] == EffectiveDeadline(e, default);
      assert e in deps;
    }
  }

  /**
   * A deployment of the run that no later deployment of the run shares a name
   * with gets exactly its effective deadline.
   */
  lemma {:induction false} LastEntryWins(deps: seq<Deployment>, ns: string, runId: string, default: int, i: nat)
    requires i < |deps| && BelongsToRun(deps[i], ns, runId)
    requires forall j :: i < j < |deps| && BelongsToRun(deps[j], ns, runId) ==> deps[j].name != deps[i].name
    ensures deps[i].name in ResolveDeadlines(deps, ns, runId, default)
    ensures ResolveDeadlines(deps, ns, runId, default)[deps[i].name] == EffectiveDeadline(deps[i], default)
    decreases |deps|
  {
    if i < |deps| - 1 {
      var front := deps[..|deps| - 1];
      assert front[i] == deps[i];
      LastEntryWins(front, ns, runId, default, i);
    }
  }

  /**
   * No two deployments of the run share a name, as the cluster guarantees
   * within one namespace; deployments elsewhere may repeat a name.
   */
  predicate RunNamesUnique(deps: seq<Deployment>, ns: string, runId: string) {
    forall i, j :: 0 <= i < j < |deps| && BelongsToRun(deps[i], ns, runId) && BelongsToRun(deps[j], ns, runId) ==>
      deps[i].name != deps[j].name
  }

  /** With the run's names unique, every deployment of the run is in the map with its own effective deadline. */
  lemma ResolvedExactly(deps: seq<Deployment>, ns: string, runId: string, default: int)
    requires RunNamesUnique(deps, ns, runId)
    ensures forall i :: 0 <= i < |deps| && BelongsToRun(deps[i], ns, runId) ==>
      deps[i].name in ResolveDeadlines(deps, ns, runId, default) &&
      ResolveDeadlines(deps, ns, runId, default)[deps[i].name] == EffectiveDeadline(deps[i], default)
  {
    forall i | 0 <= i < |deps| && BelongsToRun(deps[i], ns, runId)
      ensures deps[i].name in ResolveDeadlines(deps, ns, runId, default)
      ensures ResolveDeadlines(deps, ns, runId, default)[deps[i].name] == EffectiveDeadline(deps[i], default)
    {
      LastEntryWins(deps, ns, runId, default, i);
    }
  }

  /** A same-named deployment in another namespace does not displace the run's. */
  lemma SameNameElsewhere(runId: string)
    ensures GetDeployments(Listed([
        RunDeployment("dep1", "test", runId, Some(100)),
        RunDeployment("dep1", "test1", runId, Some(50))]), "test", runId, 200)
      == Success(map["dep1" := 100])
  {
    var d1 := RunDeployment("dep1", "test", runId, Some(100));
    var d2 := RunDeployment("dep1", "test1", runId, Some(50));
    assert [d1, d2][..1] == [d1];
    assert ResolveDeadlines([d1], "test", runId, 200) == map["dep1" := 100];
  }

  /** A deployment labelled with `runId` in `ns`. */
  function RunDeployment(name: string, ns: string, runId: string, deadline: Option<int>): Deployment {
    Deployment(name, ns, map[RUN_ID_LABEL := runId], deadline)
  }

  /** Declared deadlines below the default are kept: 10s and 20s under a 200s default. */
  lemma DeclaredBelowDefaultKept(runId: string)
    ensures GetDeployments(Listed([
        Deployment("dep1", "test", map[RUN_ID_LABEL := runId, "random" := "foo"], Some(10)),
        RunDeployment("dep2", "test", runId, Some(20))]), "test", runId, 200)
      == Success(map["dep1" := 10, "dep2" := 20])
  {
    var d1 := Deployment("dep1", "test", map[RUN_ID_LABEL := runId, "random" := "foo"], Some(10));
    var d2 := RunDeployment("dep2", "test", runId, Some(20));
    assert [d1, d2][..1] == [d1];
    assert ResolveDeadlines([d1], "test", runId, 200) == map["dep1" := 10];
  }

  /** A declared deadline above the default is capped: 300s under a 200s default gives 200s. */
  lemma DeclaredAboveDefaultCapped(runId: string)
    ensures GetDeployments(Listed([
        Deployment("dep1", "test", map[RUN_ID_LABEL := runId, "random" := "foo"], Some(300))]), "test", runId, 200)
      == Success(map["dep1" := 200])
  {
  }

  /** A deployment without a progress deadline gets the default. */
  lemma UnsetDeadlineGetsDefault(runId: string)
    ensures GetDeployments(Listed([
        RunDeployment("dep1", "test", runId, Some(100)),
        RunDeployment("dep2", "test", runId, None)]), "test", runId, 200)
      == Success(map["dep1" := 100, "dep2" := 200])
  {
    var d1 := RunDeployment("dep1", "test", runId, Some(100));
    var d2 := RunDeployment("dep2", "test", runId, None);
    assert [d1, d2][..1] == [d1];
    assert ResolveDeadlines([d1], "test", runId, 200) == map["dep1" := 100];
  }

  /** No deployments: an empty map and no error. */
  lemma NoDeploymentsEmptyMap(ns: string, runId: string, default: int)
    ensures GetDeployments(Listed([]), ns, runId, default) == Success(map[])
  {
  }

  /**
   * Deployments in another namespace, without the run-id label, or labelled
   * with another run are left out.
   */
  lemma ForeignDeploymentsLeftOut(runId: string)
    requires runId != "9876-6789"
    ensures GetDeployments(Listed([
        RunDeployment("dep1", "test", runId, Some(100)),
        RunDeployment("dep2", "test1", runId, Some(100))]), "test", runId, 200)
      == Success(map["dep1" := 100])
    ensures GetDeployments(Listed([
        Deployment("dep1", "test", map["some-other-tool" := "helm"], Some(100))]), "test", runId, 200)
      == Success(map[])
    ensures GetDeployments(Listed([
        RunDeployment("dep1", "test", "9876-6789", Some(100))]), "test", runId, 200)
      == Success(map[])
  {
    var d1 := RunDeployment("dep1", "test", runId, Some(100));
    var d2 := RunDeployment("dep2", "test1", runId, Some(100));
    assert [d1, d2][..1] == [d1];
    assert ResolveDeadlines([d1], "test", runId, 200) == map["dep1" := 100];
  }
}
