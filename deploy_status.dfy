/**
 * Status aggregation: the outcome recorded for every deployment is reduced to
 * one verdict, an error naming every deployment that failed, or none.
 */
module DeployStatus {
  import opened Wrappers
  import opened Text

  /** What a deployment's checker left in the result store. */
  datatype Outcome = Succeeded | Running(status: string) | Failed(cause: string)

  /** The line that reports one failed deployment. */
  function FailureMessage(name: string, cause: string): string {
    "deployment " + name + " failed due to " + cause
  }

  /**
   * `order` is one visiting order of the store: every key exactly once. The
   * store is a concurrent map whose range order is unspecified, so every
   * property below holds for every such order.
   */
  predicate IsEnumeration(order: seq<string>, store: map<string, Outcome>) {
    (forall i, j :: 0 <= i < j < |order| ==> order[i] != order[j]) &&
    (forall n :: n in order ==> n in store) && (forall n :: n in store ==> n in order)
  }

  /** The names whose outcome is a failure, in visiting order. */
  function FailedNames(store: map<string, Outcome>, order: seq<string>): (names: seq<string>)
    requires forall n :: n in order ==> n in store
    ensures forall n :: n in names ==> n in order && store[n].Failed?
    ensures forall n :: n in order && store[n].Failed? ==> n in names
  {
    if order == [] then []
    else
      var rest := FailedNames(store, order[1..]);
      if store[order[0]].Failed? then [order[0]] + rest else rest
  }

  /** The failure lines, one per failed name, in visiting order. */
  function FailureMessages(store: map<string, Outcome>, names: seq<string>): seq<string>
    requires forall n :: n in names ==> n in store && store[n].Failed?
  {
    seq(|names|, i requires 0 <= i < |names| => FailureMessage(names[i], store[names[i]].cause))
  }

  /**
   * getSkaffoldDeployStatus: no error when nothing failed; otherwise one error
   * whose text is the failure lines joined by line breaks.
   */
  function GetDeployStatus(store: map<string, Outcome>, order: seq<string>): (err: Option<string>)
    requires IsEnumeration(order, store)
    ensures err.None? <==> forall n :: n in store ==> !store[n].Failed?
  {
    var names := FailedNames(store, order);
    if names == [] then None else Some(Join(FailureMessages(store, names), "\n"))
  }

  /** The error names every failed deployment with its cause. */
  lemma ReportsEveryFailure(store: map<string, Outcome>, order: seq<string>, n: string)
    requires IsEnumeration(order, store)
    requires n in store && store[n].Failed?
    ensures GetDeployStatus(store, order).Some?
    ensures Contains(GetDeployStatus(store, order).value, FailureMessage(n, store[n].cause))
  {
    var names := FailedNames(store, order);
    var k :| 0 <= k < |names| && names[k] == n;
    JoinContains(FailureMessages(store, names), "\n", k);
  }

  /** Each deployment appears among the failed names once if it failed and never otherwise. */
  lemma {:induction false} FailedExactlyOnce(store: map<string, Outcome>, order: seq<string>, n: string)
    requires forall n :: n in order ==> n in store
    requires forall i, j :: 0 <= i < j < |order| ==> order[i] != order[j]
    ensures multiset(FailedNames(store, order))[n] ==
      if n in order && store[n].Failed? then 1 else 0
  {
    if order != [] {
      FailedExactlyOnce(store, order[1..], n);
      assert order[0] !in order[1..];
    }
  }

  /** The failures reported do not depend on the order in which the store is visited. */
  lemma OrderIndependent(store: map<string, Outcome>, order1: seq<string>, order2: seq<string>)
    requires IsEnumeration(order1, store) && IsEnumeration(order2, store)
    ensures multiset(FailedNames(store, order1)) == multiset(FailedNames(store, order2))
  {
    forall n ensures multiset(FailedNames(store, order1))[n] == multiset(FailedNames(store, order2))[n] {
      FailedExactlyOnce(store, order1, n);
      FailedExactlyOnce(store, order2, n);
    }
  }

  /**
   * The error text is the failure lines joined by line breaks: one line for
   * each failed deployment, exactly once, and none for any other.
   */
  lemma ErrorLinesAreFailures(store: map<string, Outcome>, order: seq<string>)
    requires IsEnumeration(order, store)
    requires GetDeployStatus(store, order).Some?
    ensures exists names: seq<string> ::
      (forall n :: n in names ==> n in store && store[n].Failed?) &&
      (forall n :: n in store ==> multiset(names)[n] == if store[n].Failed? then 1 else 0) &&
      GetDeployStatus(store, order).value == Join(FailureMessages(store, names), "\n")
  {
    var names := FailedNames(store, order);
    forall n | n in store ensures multiset(names)[n] == if store[n].Failed? then 1 else 0 {
      FailedExactlyOnce(store, order, n);
    }
  }

  /** One failure among successes: in either visiting order, the error is exactly that failure's line. */
  lemma OneFailureReported(cause: string, order: seq<string>)
    requires IsEnumeration(order, map["dep1" := Succeeded, "dep2" := Failed(cause)])
    ensures GetDeployStatus(map["dep1" := Succeeded, "dep2" := Failed(cause)], order) ==
      Some("deployment dep2 failed due to " + cause)
  {
    var store := map["dep1" := Succeeded, "dep2" := Failed(cause)];
    var names := FailedNames(store, order);
    forall n ensures multiset(names)[n] == multiset{"dep2"}[n] {
      FailedExactlyOnce(store, order, n);
    }
    assert multiset(names) == multiset{"dep2"};
    assert |names| == 1;
    assert names[0] in multiset(names);
    assert names == ["dep2"];
    assert FailureMessages(store, ["dep2"]) == [FailureMessage("dep2", cause)];
    Dep2Message(cause);
  }

  lemma Dep2Message(cause: string)
    ensures FailureMessage("dep2", cause) == "deployment dep2 failed due to " + cause
  {
    assert "deployment " + "dep2" == "deployment dep2";
    assert "deployment dep2" + " failed due to " == "deployment dep2 failed due to ";
  }

  /** Successes and running deployments only: no error. */
  lemma NoFailureNoError(status: string, order: seq<string>)
    requires IsEnumeration(order, map["dep1" := Succeeded, "dep2" := Running(status)])
    ensures GetDeployStatus(map["dep1" := Succeeded, "dep2" := Running(status)], order).None?
  {
  }

  /** Two failures: the error names both, whatever the visiting order. */
  lemma TwoFailuresReported(cause2: string, cause3: string, order: seq<string>)
    requires IsEnumeration(order, map["dep1" := Succeeded, "dep2" := Failed(cause2), "dep3" := Failed(cause3)])
    ensures GetDeployStatus(map["dep1" := Succeeded, "dep2" := Failed(cause2), "dep3" := Failed(cause3)], order).Some?
    ensures Contains(GetDeployStatus(map["dep1" := Succeeded, "dep2" := Failed(cause2), "dep3" := Failed(cause3)], order).value,
      FailureMessage("dep2", cause2))
    ensures Contains(GetDeployStatus(map["dep1" := Succeeded, "dep2" := Failed(cause2), "dep3" := Failed(cause3)], order).value,
      FailureMessage("dep3", cause3))
  {
    var store := map["dep1" := Succeeded, "dep2" := Failed(cause2), "dep3" := Failed(cause3)];
    assert store["dep2"] == Failed(cause2);
    ReportsEveryFailure(store, order, "dep2");
    assert store["dep3"] == Failed(cause3);
    ReportsEveryFailure(store, order, "dep3");
  }
}
