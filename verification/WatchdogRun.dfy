/** The critical-service monitor over many passes (backend/src/services/criticalServiceHealth.ts), as it is run. */
module WatchdogRun {
  import opened Common
  import opened Watchdog

  /** The same probes of the project are configured in every pass, each once. */
  predicate FixedProbes(probes: seq<Probe>, seen: seq<seq<Option<Observation>>>, p: string, names: seq<string>)
    requires forall k :: 0 <= k < |seen| ==> |seen[k]| == |probes|
  {
    Distinct(names) && forall k :: 0 <= k < |seen| ==> Reads(names, ReadingsOf(probes, seen[k], p))
  }

  /**
   * A monitor started afresh and run for any number of passes over all its probes, whatever they see and however
   * restarts go, restarts each project r times with 4 r <= n + 1.
   */
  method CountRestarts(
    probes: seq<Probe>, seen: seq<seq<Option<Observation>>>, outcomes: seq<string -> RestartOutcome>,
    p: string, names: seq<string>) returns (restarts: nat)
    requires DistinctNames(probes) && |outcomes| == |seen| && forall k :: 0 <= k < |seen| ==> |seen[k]| == |probes|
    requires FixedProbes(probes, seen, p, names)
    ensures 4 * restarts <= |seen| + 1
  {
    hide Restarts;
    hide View;
    hide PassedOver;
    hide Reads;
    hide ReadingsOf;
    var m := new Monitor();
    ghost var start := View(m.failures, m.projects, probes, p);
    ghost var passes: seq<Pass> := [];
    restarts := 0;
    NothingYet(start);
    for k := 0 to |seen|
      invariant fresh(m)
      invariant |passes| == k && forall i :: 0 <= i < k ==> passes[i] == Pass(ReadingsOf(probes, seen[i], p), outcomes[i](p))
      invariant names != [] ==> View(m.failures, m.projects, probes, p) == RunAll(start, passes)
      invariant restarts == if names == [] then 0 else Restarts(start, passes)
    {
      ghost var before := View(m.failures, m.projects, probes, p);
      var reports := m.CheckCriticalServices(probes, seen[k], outcomes[k]);
      ghost var pass := Pass(ReadingsOf(probes, seen[k], p), outcomes[k](p));
      OnePass(probes, seen[k], p, names, before, View(m.failures, m.projects, probes, p), outcomes[k](p), reports, start, passes);
      passes := passes + [pass];
      if p in reports && reports[p].restarted {
        restarts := restarts + 1;
      }
    }
    if names != [] {
      StartsFresh(probes, p, names);
      FourPassesPerRestart(start, names, passes);
    }
  }

  lemma NothingYet(start: Project)
    ensures RunAll(start, []) == start && Restarts(start, []) == 0
  {
  }

  lemma StartsFresh(probes: seq<Probe>, p: string, names: seq<string>)
    ensures var start := View(map[], map[], probes, p);
            start.state == FRESH && forall name :: Lookup(start.counts, name) == 0
  {
  }

  /** One pass over all projects, as a pass of this one. */
  lemma OnePass(
    probes: seq<Probe>, seen: seq<Option<Observation>>, p: string, names: seq<string>, before: Project, after: Project,
    outcome: RestartOutcome, reports: map<string, Report>, start: Project, passes: seq<Pass>)
    requires |seen| == |probes| && Reads(names, ReadingsOf(probes, seen, p))
    requires PassedOver(p, probes, seen, before, after, outcome, reports)
    requires names != [] ==> before == RunAll(start, passes)
    ensures var more := passes + [Pass(ReadingsOf(probes, seen, p), outcome)];
            && (names == [] ==> p !in reports)
            && (names != [] ==>
                  after == RunAll(start, more) && p in reports
                  && Restarts(start, more) == Restarts(start, passes) + if reports[p].restarted then 1 else 0)
  {
    hide ReadingsOf;
    hide Decided;
    hide ProjectPass;
    var more := passes + [Pass(ReadingsOf(probes, seen, p), outcome)];
    assert more[..|more| - 1] == passes;
  }
}
