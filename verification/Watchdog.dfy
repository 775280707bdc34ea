/**
 * The critical-service monitor that restarts a project after repeated external failures
 * (backend/src/services/criticalServiceHealth.ts), and how rarely it can do so over any run of passes.
 */
module Watchdog {
  import opened Common

  const RESTART_AFTER: nat := 3
  const RESTART_AFTER_DNS: nat := 8
  const KUMA_DOWN := 0

  datatype Probe = Probe(name: string, restartService: string)

  /** What one check of a probe saw: reachable, or not, for a DNS or another reason. */
  datatype Health = Healthy | Down(dns: bool)

  /** A check together with what Uptime Kuma says about the same URL, when it says anything. */
  datatype Observation = Observation(health: Health, kuma: Option<int>)

  datatype Reading = Reading(name: string, seen: Observation)

  datatype RestartOutcome = Restarted | NotInstalled | Threw

  datatype ProjectState = ProjectState(awaitingRecovery: bool, gaveUpAlerted: bool)

  const FRESH := ProjectState(false, false)

  datatype Report = Report(restarted: bool, gaveUp: bool)

  const QUIET := Report(false, false)

  // ----- One pass over one project -----

  function Lookup(failures: map<string, nat>, name: string): nat {
    if name in failures then failures[name] else 0
  }

  function CountOne(failures: map<string, nat>, r: Reading): map<string, nat> {
    failures[r.name := if r.seen.health.Healthy? then 0 else Lookup(failures, r.name) + 1]
  }

  /** Each failing probe's streak grows by one, each healthy probe's streak ends. */
  function CountAll(failures: map<string, nat>, rs: seq<Reading>): map<string, nat> {
    if rs == [] then failures else CountOne(CountAll(failures, rs[..|rs| - 1]), rs[|rs| - 1])
  }

  function Zeroed(failures: map<string, nat>, rs: seq<Reading>): map<string, nat> {
    if rs == [] then failures else Zeroed(failures, rs[..|rs| - 1])[rs[|rs| - 1].name := 0]
  }

  predicate AllHealthy(rs: seq<Reading>) {
    forall r | r in rs :: r.seen.health.Healthy?
  }

  function Threshold(health: Health): nat
    requires health.Down?
  {
    if health.dns then RESTART_AFTER_DNS else RESTART_AFTER
  }

  predicate AtThreshold(failures: map<string, nat>, r: Reading) {
    r.seen.health.Down? && Lookup(failures, r.name) >= Threshold(r.seen.health)
  }

  /** Uptime Kuma does not contradict the failure. */
  predicate Confirmed(r: Reading) {
    r.seen.kuma.None? || r.seen.kuma.value == KUMA_DOWN
  }

  datatype Decision = Decision(state: ProjectState, report: Report)

  /** What one pass does with a project once its probes have been counted. */
  function Decide(failures: map<string, nat>, s: ProjectState, rs: seq<Reading>, outcome: RestartOutcome): Decision {
    if AllHealthy(rs) then Decision(FRESH, QUIET)
    else if !exists r | r in rs :: AtThreshold(failures, r) then Decision(s, QUIET)
    else if s.awaitingRecovery then Decision(s.(gaveUpAlerted := true), Report(false, !s.gaveUpAlerted))
    else if !exists r | r in rs :: AtThreshold(failures, r) && Confirmed(r) then Decision(s, QUIET)
    else if outcome.Restarted? then Decision(s.(awaitingRecovery := true), Report(true, false))
    else Decision(s, QUIET)
  }

  datatype Project = Project(counts: map<string, nat>, state: ProjectState)

  datatype Pass = Pass(readings: seq<Reading>, outcome: RestartOutcome)

  function Decided(p: Project, pass: Pass): Decision {
    Decide(CountAll(p.counts, pass.readings), p.state, pass.readings, pass.outcome)
  }

  function ProjectPass(p: Project, pass: Pass): Project {
    var counts := CountAll(p.counts, pass.readings);
    Project(if Decided(p, pass).report.restarted then Zeroed(counts, pass.readings) else counts, Decided(p, pass).state)
  }

  // ----- The monitor over all projects -----

  predicate DistinctNames(probes: seq<Probe>) {
    forall i, j :: 0 <= i < j < |probes| ==> probes[i].name != probes[j].name
  }

  /** The readings of one project's configured probes, in the order of the probe list. */
  function ReadingsOf(probes: seq<Probe>, seen: seq<Option<Observation>>, project: string): seq<Reading>
    requires |seen| == |probes|
  {
    if probes == [] then []
    else
      var n := |probes| - 1;
      ReadingsOf(probes[..n], seen[..n], project) +
      if seen[n].Some? && probes[n].restartService == project then [Reading(probes[n].name, seen[n].value)] else []
  }

  function NamesOf(probes: seq<Probe>, project: string): set<string> {
    set p | p in probes && p.restartService == project :: p.name
  }

  /** What the monitor remembers that concerns one project. */
  function View(failures: map<string, nat>, projects: map<string, ProjectState>, probes: seq<Probe>, project: string): Project {
    Project(map n | n in NamesOf(probes, project) :: Lookup(failures, n),
            if project in projects then projects[project] else FRESH)
  }

  class Monitor {
    var failures: map<string, nat>
    var projects: map<string, ProjectState>

    constructor ()
      ensures failures == map[] && projects == map[]
    {
      failures, projects := map[], map[];
    }

    method HandleProject(project: string, results: seq<Reading>, outcome: RestartOutcome) returns (report: Report)
      modifies this
      ensures var d := Decide(old(failures), if project in old(projects) then old(projects)[project] else FRESH, results, outcome);
              && report == d.report
              && projects == old(projects)[project := d.state]
              && failures == if report.restarted then Zeroed(old(failures), results) else old(failures)
    {
      var s := if project in projects then projects[project] else FRESH;
      projects := projects[project := s];
      if AllHealthy(results) {
        projects := projects[project := FRESH];
        return QUIET;
      }
      var atThreshold, confirmed := Sift(results);
      if |atThreshold| == 0 {
        return QUIET;
      }
      if s.awaitingRecovery {
        projects := projects[project := s.(gaveUpAlerted := true)];
        return Report(false, !s.gaveUpAlerted);
      }
      if |confirmed| == 0 || !outcome.Restarted? {
        return QUIET;
      }
      projects := projects[project := s.(awaitingRecovery := true)];
      ZeroAll(results);
      return Report(true, false);
    }

    method ZeroAll(results: seq<Reading>)
      modifies `failures
      ensures failures == Zeroed(old(failures), results)
    {
      for i := 0 to |results|
        invariant failures == Zeroed(old(failures), results[..i])
      {
        assert results[..i + 1][..i] == results[..i];
        failures := failures[results[i].name := 0];
      }
      assert results[..|results|] == results;
    }

    /** The failing probes that have reached their threshold, and those of them that are not contradicted. */
    method Sift(results: seq<Reading>) returns (atThreshold: seq<Reading>, confirmed: seq<Reading>)
      ensures atThreshold == [] <==> !exists r | r in results :: AtThreshold(failures, r)
      ensures confirmed == [] <==> !exists r | r in results :: AtThreshold(failures, r) && Confirmed(r)
    {
      atThreshold, confirmed := [], [];
      for i := 0 to |results|
        invariant atThreshold == [] <==> forall k :: 0 <= k < i ==> !AtThreshold(failures, results[k])
        invariant confirmed == [] <==> forall k :: 0 <= k < i ==> !(AtThreshold(failures, results[k]) && Confirmed(results[k]))
      {
        if AtThreshold(failures, results[i]) {
          atThreshold := atThreshold + [results[i]];
          if Confirmed(results[i]) {
            confirmed := confirmed + [results[i]];
          }
        }
      }
    }

    /** One pass: probe everything that is configured, then handle each project that had a reading. */
    method CheckCriticalServices(probes: seq<Probe>, seen: seq<Option<Observation>>, outcome: string -> RestartOutcome)
      returns (reports: map<string, Report>)
      requires |seen| == |probes| && DistinctNames(probes)
      modifies this
      ensures forall p: string {:trigger ReadingsOf(probes, seen, p)} ::
                PassedOver(p, probes, seen, old(View(failures, projects, probes, p)),
                           View(failures, projects, probes, p), outcome(p), reports)
    {
      hide *;
      ghost var failures0, projects0 := failures, projects;
      var order, byProject := ProbeAll(probes, seen);
      ghost var counted := failures;
      reports := map[];
      StartProgress(probes, seen, counted, projects0, outcome);
      for k := 0 to |order|
        invariant Progress(probes, seen, counted, projects0, failures, projects, order[..k], outcome, reports)
      {
        var project := order[k];
        ghost var f, ps, done := failures, projects, reports;
        var report := HandleProject(project, byProject[project], outcome(project));
        reports := reports[project := report];
        assert order[..k + 1] == order[..k] + [project];
        NotYetDone(order, k);
        ProgressStep(probes, seen, counted, projects0, f, ps, order[..k], outcome, done, project);
      }
      assert order[..|order|] == order;
      forall p: string
        ensures PassedOver(p, probes, seen, View(failures0, projects0, probes, p), View(failures, projects, probes, p), outcome(p), reports)
      {
        ProgressEnds(probes, seen, failures0, projects0, failures, projects, order, outcome, reports, p);
      }
    }

    method ProbeAll(probes: seq<Probe>, seen: seq<Option<Observation>>)
      returns (order: seq<string>, byProject: map<string, seq<Reading>>)
      requires |seen| == |probes|
      modifies `failures
      ensures failures == CountAll(old(failures), AllReadings(probes, seen))
      ensures Distinct(order) && byProject.Keys == set p | p in order
      ensures forall p :: p in byProject <==> ReadingsOf(probes, seen, p) != []
      ensures forall p :: p in byProject ==> byProject[p] == ReadingsOf(probes, seen, p)
    {
      hide CountAll;
      hide AllReadings;
      hide ReadingsOf;
      NoProbesNoReadings(failures);
      order, byProject := [], map[];
      for i := 0 to |probes|
        invariant failures == CountAll(old(failures), AllReadings(probes[..i], seen[..i]))
        invariant Distinct(order) && byProject.Keys == set p | p in order
        invariant forall p :: p in byProject <==> ReadingsOf(probes[..i], seen[..i], p) != []
        invariant forall p :: p in byProject ==> byProject[p] == ReadingsOf(probes[..i], seen[..i], p)
      {
        ReadingsSnoc(probes, seen, i);
        assert AllReadings(probes[..i], seen[..i]) + [] == AllReadings(probes[..i], seen[..i]);
        if seen[i].Some? {
          var project := probes[i].restartService;
          var r := Reading(probes[i].name, seen[i].value);
          CountAllSnoc(old(failures), AllReadings(probes[..i], seen[..i]), r);
          failures := CountOne(failures, r);
          if project !in byProject {
            order := order + [project];
            byProject := byProject[project := [r]];
          } else {
            byProject := byProject[project := byProject[project] + [r]];
          }
        }
      }
      assert probes[..|probes|] == probes && seen[..|probes|] == seen;
    }
  }

  function AllReadings(probes: seq<Probe>, seen: seq<Option<Observation>>): seq<Reading>
    requires |seen| == |probes|
  {
    if probes == [] then []
    else
      var n := |probes| - 1;
      AllReadings(probes[..n], seen[..n]) + if seen[n].Some? then [Reading(probes[n].name, seen[n].value)] else []
  }

  /** One more probe adds at most one reading, to its own project. */
  lemma ReadingsSnoc(probes: seq<Probe>, seen: seq<Option<Observation>>, i: nat)
    requires |seen| == |probes| && i < |probes|
    ensures var r := if seen[i].Some? then [Reading(probes[i].name, seen[i].value)] else [];
            && AllReadings(probes[..i + 1], seen[..i + 1]) == AllReadings(probes[..i], seen[..i]) + r
            && forall p :: ReadingsOf(probes[..i + 1], seen[..i + 1], p) ==
                           if probes[i].restartService == p then ReadingsOf(probes[..i], seen[..i], p) + r
                           else ReadingsOf(probes[..i], seen[..i], p)
  {
    assert probes[..i + 1][..i] == probes[..i] && seen[..i + 1][..i] == seen[..i];
    forall p ensures ReadingsOf(probes[..i], seen[..i], p) + [] == ReadingsOf(probes[..i], seen[..i], p) {
    }
  }

  lemma NoProbesNoReadings(failures: map<string, nat>)
    ensures AllReadings([], []) == [] && CountAll(failures, []) == failures
    ensures forall p :: ReadingsOf([], [], p) == []
  {
  }

  lemma CountAllSnoc(failures: map<string, nat>, rs: seq<Reading>, r: Reading)
    ensures CountAll(failures, rs + [r]) == CountOne(CountAll(failures, rs), r)
  {
    assert (rs + [r])[..|rs|] == rs;
  }

  /** A project has been through `HandleProject` after the counting that led to `counted`. */
  ghost predicate Handled(
    p: string, probes: seq<Probe>, seen: seq<Option<Observation>>,
    counted: map<string, nat>, projects0: map<string, ProjectState>,
    failures: map<string, nat>, projects: map<string, ProjectState>, outcome: RestartOutcome, report: Report)
    requires |seen| == |probes|
  {
    var rs := ReadingsOf(probes, seen, p);
    var before := View(counted, projects0, probes, p);
    var d := Decide(before.counts, before.state, rs, outcome);
    && report == d.report
    && View(failures, projects, probes, p) ==
       Project(if report.restarted then Zeroed(before.counts, rs) else before.counts, d.state)
  }

  /** The projects in `done` have been handled, the others are as the counting left them. */
  ghost predicate Progress(
    probes: seq<Probe>, seen: seq<Option<Observation>>, counted: map<string, nat>, projects0: map<string, ProjectState>,
    failures: map<string, nat>, projects: map<string, ProjectState>, done: seq<string>,
    outcome: string -> RestartOutcome, reports: map<string, Report>)
    requires |seen| == |probes|
  {
    && (forall p :: p in reports <==> p in done)
    && (forall p: string :: InPlace(p, probes, seen, counted, projects0, failures, projects, outcome(p), reports))
  }

  /** The reported project has been handled, any other is as the counting left it. */
  ghost predicate InPlace(
    p: string, probes: seq<Probe>, seen: seq<Option<Observation>>,
    counted: map<string, nat>, projects0: map<string, ProjectState>,
    failures: map<string, nat>, projects: map<string, ProjectState>, outcome: RestartOutcome, reports: map<string, Report>)
    requires |seen| == |probes|
  {
    if p in reports then Handled(p, probes, seen, counted, projects0, failures, projects, outcome, reports[p])
    else View(failures, projects, probes, p) == View(counted, projects0, probes, p)
  }

  lemma StartProgress(
    probes: seq<Probe>, seen: seq<Option<Observation>>, counted: map<string, nat>, projects0: map<string, ProjectState>,
    outcome: string -> RestartOutcome)
    requires |seen| == |probes|
    ensures Progress(probes, seen, counted, projects0, counted, projects0, [], outcome, map[])
  {
  }

  lemma NotYetDone(order: seq<string>, k: nat)
    requires k < |order| && Distinct(order)
    ensures order[k] !in order[..k]
  {
  }

  lemma ProgressStep(
    probes: seq<Probe>, seen: seq<Option<Observation>>, counted: map<string, nat>, projects0: map<string, ProjectState>,
    f: map<string, nat>, ps: map<string, ProjectState>, done: seq<string>,
    outcome: string -> RestartOutcome, reports: map<string, Report>, project: string)
    requires |seen| == |probes| && DistinctNames(probes) && project !in done
    requires Progress(probes, seen, counted, projects0, f, ps, done, outcome, reports)
    ensures var rs := ReadingsOf(probes, seen, project);
            var d := Decide(f, if project in ps then ps[project] else FRESH, rs, outcome(project));
            Progress(probes, seen, counted, projects0, if d.report.restarted then Zeroed(f, rs) else f, ps[project := d.state],
                     done + [project], outcome, reports[project := d.report])
  {
    var rs := ReadingsOf(probes, seen, project);
    var d := Decide(f, if project in ps then ps[project] else FRESH, rs, outcome(project));
    hide InPlace;
    hide Decide;
    hide ReadingsOf;
    forall p: string
      ensures InPlace(p, probes, seen, counted, projects0, if d.report.restarted then Zeroed(f, rs) else f, ps[project := d.state],
                      outcome(p), reports[project := d.report])
    {
      InPlaceStep(probes, seen, counted, projects0, f, ps, outcome, reports, project, p);
    }
  }

  lemma InPlaceStep(
    probes: seq<Probe>, seen: seq<Option<Observation>>, counted: map<string, nat>, projects0: map<string, ProjectState>,
    f: map<string, nat>, ps: map<string, ProjectState>,
    outcome: string -> RestartOutcome, reports: map<string, Report>, project: string, p: string)
    requires |seen| == |probes| && DistinctNames(probes) && project !in reports
    requires InPlace(project, probes, seen, counted, projects0, f, ps, outcome(project), reports)
    requires InPlace(p, probes, seen, counted, projects0, f, ps, outcome(p), reports)
    ensures var rs := ReadingsOf(probes, seen, project);
            var d := Decide(f, if project in ps then ps[project] else FRESH, rs, outcome(project));
            InPlace(p, probes, seen, counted, projects0, if d.report.restarted then Zeroed(f, rs) else f, ps[project := d.state],
                    outcome(p), reports[project := d.report])
  {
    hide View;
    hide Decide;
    hide Zeroed;
    hide ReadingsOf;
    ViewAfterHandling(probes, seen, project, f, ps, outcome(project), p);
  }

  lemma ProgressEnds(
    probes: seq<Probe>, seen: seq<Option<Observation>>, failures0: map<string, nat>, projects0: map<string, ProjectState>,
    failures: map<string, nat>, projects: map<string, ProjectState>, order: seq<string>,
    outcome: string -> RestartOutcome, reports: map<string, Report>, p: string)
    requires |seen| == |probes| && DistinctNames(probes)
    requires p in order <==> ReadingsOf(probes, seen, p) != []
    requires Progress(probes, seen, CountAll(failures0, AllReadings(probes, seen)), projects0,
                      failures, projects, order, outcome, reports)
    ensures PassedOver(p, probes, seen, View(failures0, projects0, probes, p), View(failures, projects, probes, p), outcome(p), reports)
  {
    hide View;
    hide Decide;
    hide Zeroed;
    hide ReadingsOf;
    hide CountAll;
    ViewAfterCounting(failures0, projects0, probes, seen, p);
    NoReadingsCountNothing(View(failures0, projects0, probes, p).counts);
  }

  lemma NoReadingsCountNothing(counts: map<string, nat>)
    ensures CountAll(counts, []) == counts
  {
  }

  /** What one pass of the monitor does to one project: nothing without a reading, else one project pass. */
  ghost predicate PassedOver(
    p: string, probes: seq<Probe>, seen: seq<Option<Observation>>, before: Project, after: Project,
    outcome: RestartOutcome, reports: map<string, Report>)
    requires |seen| == |probes|
  {
    var rs := ReadingsOf(probes, seen, p);
    if rs == [] then p !in reports && after == before
    else p in reports && reports[p] == Decided(before, Pass(rs, outcome)).report && after == ProjectPass(before, Pass(rs, outcome))
  }

  // ----- Projects do not disturb one another -----

  function CountsOf(failures: map<string, nat>, names: set<string>): map<string, nat> {
    map n | n in names :: Lookup(failures, n)
  }

  lemma {:induction false} ReadingsHaveNames(probes: seq<Probe>, seen: seq<Option<Observation>>, n: nat, p: string)
    requires |seen| == |probes| && n <= |probes|
    ensures forall r :: r in ReadingsOf(probes[..n], seen[..n], p) ==> r.name in NamesOf(probes, p)
    decreases n
  {
    if n > 0 {
      assert probes[..n][..n - 1] == probes[..n - 1] && seen[..n][..n - 1] == seen[..n - 1];
      ReadingsHaveNames(probes, seen, n - 1, p);
      assert probes[n - 1] in probes;
    }
  }

  lemma OtherNames(probes: seq<Probe>, p: string, q: string)
    requires DistinctNames(probes) && p != q
    ensures NamesOf(probes, p) !! NamesOf(probes, q)
  {
  }

  /** Counting all probes counts each project's own probes. */
  lemma {:induction false} CountingIsLocal(failures: map<string, nat>, probes: seq<Probe>, seen: seq<Option<Observation>>, n: nat, p: string)
    requires |seen| == |probes| && n <= |probes| && DistinctNames(probes)
    ensures CountsOf(CountAll(failures, AllReadings(probes[..n], seen[..n])), NamesOf(probes, p)) ==
            CountAll(CountsOf(failures, NamesOf(probes, p)), ReadingsOf(probes[..n], seen[..n], p))
    decreases n
  {
    if n > 0 {
      var k := n - 1;
      ReadingsSnoc(probes, seen, k);
      CountingIsLocal(failures, probes, seen, k, p);
      var all, own := AllReadings(probes[..k], seen[..k]), ReadingsOf(probes[..k], seen[..k], p);
      assert all + [] == all && own + [] == own;
      if seen[k].Some? {
        var r := Reading(probes[k].name, seen[k].value);
        CountAllSnoc(failures, all, r);
        CountAllSnoc(CountsOf(failures, NamesOf(probes, p)), own, r);
        assert probes[k] in probes;
        assert r.name in NamesOf(probes, probes[k].restartService);
        CountOneIsLocal(CountAll(failures, all), r, NamesOf(probes, p));
        if probes[k].restartService != p {
          OtherNames(probes, p, probes[k].restartService);
        }
      }
    }
  }

  lemma CountOneIsLocal(f: map<string, nat>, r: Reading, names: set<string>)
    ensures r.name in names ==> CountsOf(CountOne(f, r), names) == CountOne(CountsOf(f, names), r)
    ensures r.name !in names ==> CountsOf(CountOne(f, r), names) == CountsOf(f, names)
  {
  }

  lemma ViewAfterCounting(
    failures: map<string, nat>, projects: map<string, ProjectState>, probes: seq<Probe>, seen: seq<Option<Observation>>, p: string)
    requires |seen| == |probes| && DistinctNames(probes)
    ensures var before := View(failures, projects, probes, p);
            View(CountAll(failures, AllReadings(probes, seen)), projects, probes, p) ==
            before.(counts := CountAll(before.counts, ReadingsOf(probes, seen, p)))
  {
    CountingIsLocal(failures, probes, seen, |probes|, p);
    assert probes[..|probes|] == probes && seen[..|probes|] == seen;
  }

  lemma DecideIsLocal(f: map<string, nat>, names: set<string>, s: ProjectState, rs: seq<Reading>, outcome: RestartOutcome)
    requires forall r :: r in rs ==> r.name in names
    ensures Decide(CountsOf(f, names), s, rs, outcome) == Decide(f, s, rs, outcome)
  {
    assert forall r :: r in rs ==> (AtThreshold(CountsOf(f, names), r) <==> AtThreshold(f, r));
  }

  lemma CountsAfterZero(f: map<string, nat>, name: string, names: set<string>)
    ensures name in names ==> CountsOf(f[name := 0], names) == CountsOf(f, names)[name := 0]
    ensures name !in names ==> CountsOf(f[name := 0], names) == CountsOf(f, names)
  {
  }

  lemma {:induction false} ZeroingIsLocal(f: map<string, nat>, rs: seq<Reading>, names: set<string>)
    ensures (forall r :: r in rs ==> r.name in names) ==> CountsOf(Zeroed(f, rs), names) == Zeroed(CountsOf(f, names), rs)
    ensures (forall r :: r in rs ==> r.name !in names) ==> CountsOf(Zeroed(f, rs), names) == CountsOf(f, names)
  {
    if rs != [] {
      var init, last := rs[..|rs| - 1], rs[|rs| - 1];
      assert last in rs && forall r :: r in init ==> r in rs;
      ZeroingIsLocal(f, init, names);
      CountsAfterZero(Zeroed(f, init), last.name, names);
    }
  }

  lemma ViewAfterHandling(
    probes: seq<Probe>, seen: seq<Option<Observation>>, project: string,
    f: map<string, nat>, ps: map<string, ProjectState>, outcome: RestartOutcome, p: string)
    requires |seen| == |probes| && DistinctNames(probes)
    ensures var rs := ReadingsOf(probes, seen, project);
            var d := Decide(f, if project in ps then ps[project] else FRESH, rs, outcome);
            var f' := if d.report.restarted then Zeroed(f, rs) else f;
            var ps' := ps[project := d.state];
            var before := View(f, ps, probes, p);
            if p != project then View(f', ps', probes, p) == before
            else d == Decide(before.counts, before.state, rs, outcome) &&
                 View(f', ps', probes, p) == Project(if d.report.restarted then Zeroed(before.counts, rs) else before.counts, d.state)
  {
    var rs := ReadingsOf(probes, seen, project);
    ReadingsHaveNames(probes, seen, |probes|, project);
    assert probes[..|probes|] == probes && seen[..|probes|] == seen;
    ZeroingIsLocal(f, rs, NamesOf(probes, p));
    if p != project {
      OtherNames(probes, p, project);
    } else {
      DecideIsLocal(f, NamesOf(probes, p), if project in ps then ps[project] else FRESH, rs, outcome);
    }
  }

  // ----- How often one project is restarted over a run of passes -----

  /** The project after a run of passes. */
  function RunAll(p: Project, passes: seq<Pass>): Project {
    if passes == [] then p else ProjectPass(RunAll(p, passes[..|passes| - 1]), passes[|passes| - 1])
  }

  function ReportAt(p: Project, passes: seq<Pass>, k: nat): Report
    requires k < |passes|
  {
    Decided(RunAll(p, passes[..k]), passes[k]).report
  }

  function Restarts(p: Project, passes: seq<Pass>): nat {
    if passes == [] then 0
    else Restarts(p, passes[..|passes| - 1]) + if ReportAt(p, passes, |passes| - 1).restarted then 1 else 0
  }

  /** Every pass reads the same configured probes, each once. */
  predicate Configured(names: seq<string>, passes: seq<Pass>) {
    && names != [] && Distinct(names)
    && forall i :: 0 <= i < |passes| ==> Reads(names, passes[i].readings)
  }

  predicate Reads(names: seq<string>, rs: seq<Reading>) {
    |rs| == |names| && forall k :: 0 <= k < |names| ==> rs[k].name == names[k]
  }

  /** The longest streak among the probes, counted up to the restart threshold. */
  function Longest(counts: map<string, nat>, names: seq<string>): (n: nat)
    ensures n <= RESTART_AFTER
    ensures forall name :: name in names && Lookup(counts, name) >= RESTART_AFTER ==> n == RESTART_AFTER
    ensures forall name :: name in names ==> Lookup(counts, name) <= n || n == RESTART_AFTER
  {
    if names == [] then 0
    else
      var init := Longest(counts, names[..|names| - 1]);
      var last := Lookup(counts, names[|names| - 1]);
      assert names == names[..|names| - 1] + [names[|names| - 1]];
      if last > RESTART_AFTER then RESTART_AFTER else if last > init then last else init
  }

  lemma {:induction false} LongestAtMost(counts: map<string, nat>, names: seq<string>, m: nat)
    requires forall name :: name in names ==> Lookup(counts, name) <= m
    ensures Longest(counts, names) <= m
  {
    if names != [] {
      assert names[|names| - 1] in names;
      LongestAtMost(counts, names[..|names| - 1], m);
    }
  }

  /** How many passes a project is ahead on its way to the next restart. */
  function Credit(p: Project, names: seq<string>): nat {
    if p.state.awaitingRecovery then 0 else 1 + Longest(p.counts, names)
  }

  lemma {:induction false} CountsAfter(counts: map<string, nat>, names: seq<string>, rs: seq<Reading>)
    requires Reads(names, rs) && Distinct(names)
    ensures forall k :: 0 <= k < |names| ==>
              Lookup(CountAll(counts, rs), names[k]) ==
              if rs[k].seen.health.Healthy? then 0 else Lookup(counts, names[k]) + 1
    ensures forall name :: name !in names ==> Lookup(CountAll(counts, rs), name) == Lookup(counts, name)
  {
    if rs != [] {
      var n := |rs| - 1;
      CountsAfter(counts, names[..n], rs[..n]);
      assert names == names[..n] + [names[n]];
      assert names[n] !in names[..n];
    }
  }

  /** A pass earns at most one step of credit, and a restart costs four. */
  lemma PassCredit(p: Project, names: seq<string>, pass: Pass)
    requires names != [] && Distinct(names) && Reads(names, pass.readings)
    ensures Credit(ProjectPass(p, pass), names) + (if Decided(p, pass).report.restarted then 4 else 0) <= Credit(p, names) + 1
  {
    var counts := CountAll(p.counts, pass.readings);
    CountsAfter(p.counts, names, pass.readings);
    var before := Longest(p.counts, names);
    assert forall name :: name in names ==> Lookup(counts, name) <= Lookup(p.counts, name) + 1;
    if AllHealthy(pass.readings) {
      assert forall name :: name in names ==> Lookup(counts, name) <= 0 by {
        forall k | 0 <= k < |names| ensures Lookup(counts, names[k]) == 0 {
          assert pass.readings[k] in pass.readings;
        }
      }
      LongestAtMost(counts, names, 0);
    } else if Decided(p, pass).report.restarted {
      var r :| r in pass.readings && AtThreshold(counts, r) && Confirmed(r);
      var k :| 0 <= k < |names| && pass.readings[k] == r;
      assert names[k] in names;
    } else {
      if before < RESTART_AFTER {
        LongestAtMost(counts, names, before + 1);
      }
    }
  }

  /** Over any n passes a project with nothing on record is restarted r times with 4 r <= n + 1. */
  lemma {:induction false} RestartBound(p: Project, names: seq<string>, passes: seq<Pass>)
    requires Configured(names, passes)
    requires p.state == FRESH && forall name :: name in names ==> Lookup(p.counts, name) == 0
    ensures 4 * Restarts(p, passes) + Credit(RunAll(p, passes), names) <= |passes| + 1
  {
    if passes == [] {
      LongestAtMost(p.counts, names, 0);
    } else {
      var init := passes[..|passes| - 1];
      RestartBound(p, names, init);
      PassCredit(RunAll(p, init), names, passes[|passes| - 1]);
    }
  }

  lemma FourPassesPerRestart(p: Project, names: seq<string>, passes: seq<Pass>)
    requires Configured(names, passes)
    requires p.state == FRESH && forall name :: name in names ==> Lookup(p.counts, name) == 0
    ensures 4 * Restarts(p, passes) <= |passes| + 1
  {
    RestartBound(p, names, passes);
  }

  /** An outage: no pass from `i` on, before `j`, sees every probe healthy. */
  predicate NoRecovery(passes: seq<Pass>, i: nat, j: nat)
    requires i <= j <= |passes|
  {
    forall k :: i <= k < j ==> !AllHealthy(passes[k].readings)
  }

  lemma PrefixOfPrefix(passes: seq<Pass>, k: nat)
    requires k < |passes|
    ensures passes[..k + 1][..k] == passes[..k]
  {
  }

  lemma RunAllStep(p: Project, passes: seq<Pass>, j: nat)
    requires 0 < j <= |passes|
    ensures RunAll(p, passes[..j]) == ProjectPass(RunAll(p, passes[..j - 1]), passes[j - 1])
    ensures ReportAt(p, passes, j - 1) == Decided(RunAll(p, passes[..j - 1]), passes[j - 1]).report
  {
    PrefixOfPrefix(passes, j - 1);
  }

  /** Once restarted, a project stays marked until a pass sees all its probes healthy; so does the alert. */
  lemma {:induction false} MarksStay(p: Project, passes: seq<Pass>, i: nat, j: nat)
    requires i <= j <= |passes| && NoRecovery(passes, i, j)
    ensures var s, s' := RunAll(p, passes[..i]).state, RunAll(p, passes[..j]).state;
            (s.awaitingRecovery ==> s'.awaitingRecovery) && (s.gaveUpAlerted ==> s'.gaveUpAlerted)
    decreases j - i
  {
    if i < j {
      PrefixOfPrefix(passes, j - 1);
      MarksStay(p, passes, i, j - 1);
    }
  }

  /** Between any two restarts lies a pass that saw every probe healthy. */
  lemma RecoveryBetweenRestarts(p: Project, passes: seq<Pass>, i: nat, j: nat)
    requires i < j < |passes| && ReportAt(p, passes, i).restarted && ReportAt(p, passes, j).restarted
    ensures exists k :: i < k < j && AllHealthy(passes[k].readings)
  {
    PrefixOfPrefix(passes, i);
    if NoRecovery(passes, i + 1, j) {
      MarksStay(p, passes, i + 1, j);
    }
  }

  /** The give-up alert goes out at most once per outage. */
  lemma OneAlertPerOutage(p: Project, passes: seq<Pass>, i: nat, j: nat)
    requires i < j < |passes| && ReportAt(p, passes, i).gaveUp && ReportAt(p, passes, j).gaveUp
    ensures exists k :: i < k < j && AllHealthy(passes[k].readings)
  {
    PrefixOfPrefix(passes, i);
    if NoRecovery(passes, i + 1, j) {
      MarksStay(p, passes, i + 1, j);
    }
  }

  lemma MarkStep(p: Project, pass: Pass)
    ensures ProjectPass(p, pass).state.awaitingRecovery ==>
              !AllHealthy(pass.readings) && (p.state.awaitingRecovery || Decided(p, pass).report.restarted)
  {
  }

  /** Pass `i` restarted the project, and no pass from then on, before `j`, saw every probe healthy. */
  predicate RestartedSince(p: Project, passes: seq<Pass>, i: nat, j: nat) {
    i < j <= |passes| && ReportAt(p, passes, i).restarted && NoRecovery(passes, i, j)
  }

  lemma OutageGoesOn(p: Project, passes: seq<Pass>, i: nat, j: nat)
    requires 0 < j <= |passes| && !AllHealthy(passes[j - 1].readings)
    requires RestartedSince(p, passes, i, j - 1) || (i == j - 1 && ReportAt(p, passes, i).restarted)
    ensures RestartedSince(p, passes, i, j)
  {
    hide ReportAt;
    hide AllHealthy;
  }

  /** A project is marked as awaiting recovery only by a restart in the same outage. */
  lemma {:induction false} MarkedByRestart(p: Project, passes: seq<Pass>, j: nat)
    requires j <= |passes| && !p.state.awaitingRecovery && RunAll(p, passes[..j]).state.awaitingRecovery
    ensures exists i: nat :: RestartedSince(p, passes, i, j)
    decreases j
  {
    if j > 0 {
      var before := RunAll(p, passes[..j - 1]);
      RunAllStep(p, passes, j);
      MarkStep(before, passes[j - 1]);
      hide RunAll;
      hide ProjectPass;
      hide Decided;
      hide AllHealthy;
      hide ReportAt;
      hide RestartedSince;
      if before.state.awaitingRecovery {
        MarkedByRestart(p, passes, j - 1);
        var i: nat :| RestartedSince(p, passes, i, j - 1);
        OutageGoesOn(p, passes, i, j);
      } else {
        OutageGoesOn(p, passes, j - 1, j);
      }
    }
  }

  /** A give-up alert is only ever sent after a restart in the same outage. */
  lemma AlertFollowsRestart(p: Project, passes: seq<Pass>, j: nat)
    requires j < |passes| && !p.state.awaitingRecovery && ReportAt(p, passes, j).gaveUp
    ensures exists i: nat :: RestartedSince(p, passes, i, j)
  {
    MarkedByRestart(p, passes, j);
  }

  predicate FailedIn(pass: Pass, name: string) {
    exists r | r in pass.readings :: r.name == name && r.seen.health.Down?
  }

  /** The probe failed in each of the last `n` passes before pass `j`. */
  predicate FailedLast(passes: seq<Pass>, name: string, j: nat, n: nat) {
    n <= j <= |passes| && forall i :: j - n <= i < j ==> FailedIn(passes[i], name)
  }

  /** In one pass a probe's count goes up by one if the probe failed, or falls to zero. */
  lemma CountStep(before: Project, names: seq<string>, pass: Pass, name: string)
    requires Distinct(names) && Reads(names, pass.readings) && name in names
    ensures var count := Lookup(ProjectPass(before, pass).counts, name);
            count == 0 || (count == Lookup(before.counts, name) + 1 && FailedIn(pass, name))
  {
    hide Decided;
    hide CountAll;
    hide Zeroed;
    CountsAfter(before.counts, names, pass.readings);
    var k :| 0 <= k < |names| && names[k] == name;
    assert pass.readings[k] in pass.readings;
    if Decided(before, pass).report.restarted {
      ZeroedAll(CountAll(before.counts, pass.readings), names, pass.readings);
    }
  }

  lemma StreakGoesOn(passes: seq<Pass>, name: string, j: nat, n: nat, count: nat)
    requires j < |passes| && FailedLast(passes, name, j, n)
    requires count == 0 || (count == n + 1 && FailedIn(passes[j], name))
    ensures FailedLast(passes, name, j + 1, count)
  {
    hide FailedIn;
  }

  /** A probe's count never exceeds its current streak of failures. */
  lemma {:induction false} CountsAreStreaks(p: Project, names: seq<string>, passes: seq<Pass>, j: nat, name: string)
    requires Configured(names, passes) && j <= |passes| && name in names
    requires Lookup(p.counts, name) == 0
    ensures FailedLast(passes, name, j, Lookup(RunAll(p, passes[..j]).counts, name))
    decreases j
  {
    if j > 0 {
      var before := RunAll(p, passes[..j - 1]);
      RunAllStep(p, passes, j);
      CountStep(before, names, passes[j - 1], name);
      hide RunAll;
      hide ProjectPass;
      hide FailedLast;
      hide FailedIn;
      CountsAreStreaks(p, names, passes, j - 1, name);
      StreakGoesOn(passes, name, j - 1, Lookup(before.counts, name), Lookup(RunAll(p, passes[..j]).counts, name));
    }
  }

  lemma {:induction false} ZeroedAll(counts: map<string, nat>, names: seq<string>, rs: seq<Reading>)
    requires Reads(names, rs)
    ensures forall name :: name in names ==> Lookup(Zeroed(counts, rs), name) == 0
  {
    if rs != [] {
      var n := |rs| - 1;
      ZeroedAll(counts, names[..n], rs[..n]);
      assert names == names[..n] + [names[n]];
    }
  }

  /**
   * Each restart follows at least three consecutive failed checks of a probe that Uptime Kuma does not
   * contradict, and at least eight when its last failure was a DNS failure.
   */
  lemma RestartFollowsFailures(p: Project, names: seq<string>, passes: seq<Pass>, j: nat)
    requires Configured(names, passes) && j < |passes| && ReportAt(p, passes, j).restarted
    requires forall name :: name in names ==> Lookup(p.counts, name) == 0
    ensures exists r :: r in passes[j].readings && r.seen.health.Down? && Confirmed(r) &&
              FailedLast(passes, r.name, j + 1, if r.seen.health.dns then RESTART_AFTER_DNS else RESTART_AFTER)
  {
    var before, pass := RunAll(p, passes[..j]), passes[j];
    var r := RestartWitness(before, pass);
    var k :| 0 <= k < |names| && pass.readings[k] == r;
    assert names[k] in names;
    CountsAreStreaks(p, names, passes, j, r.name);
    StreakGrows(before.counts, names, passes, j, k);
    var n := Lookup(before.counts, r.name) + 1;
    FailedLastFewer(passes, r.name, j + 1, n, Threshold(r.seen.health));
  }

  lemma RestartWitness(p: Project, pass: Pass) returns (r: Reading)
    requires Decided(p, pass).report.restarted
    ensures r in pass.readings && AtThreshold(CountAll(p.counts, pass.readings), r) && Confirmed(r)
  {
    r :| r in pass.readings && AtThreshold(CountAll(p.counts, pass.readings), r) && Confirmed(r);
  }

  lemma StreakGrows(counts: map<string, nat>, names: seq<string>, passes: seq<Pass>, j: nat, k: nat)
    requires Configured(names, passes) && j < |passes| && k < |names|
    requires passes[j].readings[k].seen.health.Down?
    requires FailedLast(passes, names[k], j, Lookup(counts, names[k]))
    ensures Lookup(CountAll(counts, passes[j].readings), names[k]) == Lookup(counts, names[k]) + 1
    ensures FailedLast(passes, names[k], j + 1, Lookup(counts, names[k]) + 1)
  {
    CountsAfter(counts, names, passes[j].readings);
    assert passes[j].readings[k] in passes[j].readings;
    assert FailedIn(passes[j], names[k]);
  }

  lemma FailedLastFewer(passes: seq<Pass>, name: string, j: nat, n: nat, m: nat)
    requires FailedLast(passes, name, j, n) && m <= n
    ensures FailedLast(passes, name, j, m)
  {
  }

  // ----- Exactly when a project is restarted, and when its restart is given up on -----

  /** Uptime Kuma says nothing about the probe, or that it is down. */
  predicate Uncontradicted(r: Reading) {
    r.seen.kuma == None || r.seen.kuma == Some(0)
  }

  /** The reading is the last of three failures in a row, of eight when it failed for want of a name. */
  predicate FailsAgain(passes: seq<Pass>, j: nat, r: Reading)
    requires j < |passes|
  {
    r in passes[j].readings && r.seen.health.Down? && FailedLast(passes, r.name, j + 1, if r.seen.health.dns then 8 else 3)
  }

  lemma NotRestartedCount(before: Project, names: seq<string>, pass: Pass, name: string)
    requires Distinct(names) && Reads(names, pass.readings) && name in names
    requires FailedIn(pass, name) && !Decided(before, pass).report.restarted
    ensures Lookup(ProjectPass(before, pass).counts, name) == Lookup(before.counts, name) + 1
  {
    hide Decided;
    hide CountAll;
    CountsAfter(before.counts, names, pass.readings);
    var r :| r in pass.readings && r.name == name && r.seen.health.Down?;
    var k :| 0 <= k < |names| && pass.readings[k] == r;
  }

  /** A streak that no restart falls into is counted in full. */
  lemma {:induction false} StreakIsCounted(p: Project, names: seq<string>, passes: seq<Pass>, j: nat, n: nat, name: string)
    requires Configured(names, passes) && j <= |passes| && name in names && FailedLast(passes, name, j, n)
    requires forall k :: j - n <= k < j ==> !ReportAt(p, passes, k).restarted
    ensures Lookup(RunAll(p, passes[..j]).counts, name) >= n
    decreases n
  {
    if n > 0 {
      RunAllStep(p, passes, j);
      hide RunAll;
      hide ProjectPass;
      hide ReportAt;
      hide Decided;
      assert FailedIn(passes[j - 1], name);
      assert !ReportAt(p, passes, j - 1).restarted;
      StreakIsCounted(p, names, passes, j - 1, n - 1, name);
      NotRestartedCount(RunAll(p, passes[..j - 1]), names, passes[j - 1], name);
    }
  }

  lemma FailureIsNoRecovery(pass: Pass, name: string)
    requires FailedIn(pass, name)
    ensures !AllHealthy(pass.readings)
  {
  }

  /** A pass that decides over a probe's streak: the reading is at its threshold exactly when the streak is long enough. */
  lemma ThresholdIff(p: Project, names: seq<string>, passes: seq<Pass>, j: nat, r: Reading)
    requires Configured(names, passes) && j < |passes| && forall name :: name in names ==> Lookup(p.counts, name) == 0
    requires r in passes[j].readings && r.seen.health.Down?
    ensures AtThreshold(CountAll(RunAll(p, passes[..j]).counts, passes[j].readings), r) ==> FailsAgain(passes, j, r)
    ensures FailsAgain(passes, j, r) && NoRestartIn(p, passes, j - (if r.seen.health.dns then 7 else 2), j) ==>
              AtThreshold(CountAll(RunAll(p, passes[..j]).counts, passes[j].readings), r)
  {
    hide RunAll;
    hide CountAll;
    hide ReportAt;
    var before := RunAll(p, passes[..j]);
    var k :| 0 <= k < |names| && passes[j].readings[k] == r;
    assert names[k] in names;
    var n := if r.seen.health.dns then 8 else 3;
    CountsAreStreaks(p, names, passes, j, r.name);
    StreakGrows(before.counts, names, passes, j, k);
    if AtThreshold(CountAll(before.counts, passes[j].readings), r) {
      FailedLastFewer(passes, r.name, j + 1, Lookup(before.counts, r.name) + 1, n);
    }
    if FailsAgain(passes, j, r) && NoRestartIn(p, passes, j - (n - 1), j) {
      StreakIsCounted(p, names, passes, j, n - 1, r.name);
    }
  }

  /** No restart from pass `i` on, before `j`. */
  predicate NoRestartIn(p: Project, passes: seq<Pass>, i: int, j: nat)
    requires j <= |passes|
  {
    forall k :: 0 <= k < j && i <= k ==> !ReportAt(p, passes, k).restarted
  }

  /** A pass with every probe healthy lies behind pass `i`, before `j`. */
  predicate RecoveredBetween(passes: seq<Pass>, i: nat, j: nat)
    requires j <= |passes|
  {
    exists k :: i < k < j && AllHealthy(passes[k].readings)
  }

  /**
   * Exactly when a pass restarts a project: the restart goes through, every earlier restart was followed by a recovery,
   * and some probe that Uptime Kuma does not contradict failed in three passes in a row, in eight if its name was not found.
   */
  lemma RestartIff(p: Project, names: seq<string>, passes: seq<Pass>, j: nat)
    requires Configured(names, passes) && j < |passes|
    requires p.state == ProjectState(false, false) && forall name :: name in names ==> Lookup(p.counts, name) == 0
    ensures ReportAt(p, passes, j).restarted <==>
              && passes[j].outcome.Restarted?
              && (forall i: nat :: i < j && ReportAt(p, passes, i).restarted ==> RecoveredBetween(passes, i, j))
              && exists r <- passes[j].readings :: Uncontradicted(r) && FailsAgain(passes, j, r)
  {
    if ReportAt(p, passes, j).restarted {
      var r := RestartWitness(RunAll(p, passes[..j]), passes[j]);
      ThresholdIff(p, names, passes, j, r);
      assert Uncontradicted(r);
      forall i: nat | i < j && ReportAt(p, passes, i).restarted ensures RecoveredBetween(passes, i, j) {
        RecoveryBetweenRestarts(p, passes, i, j);
      }
    } else if passes[j].outcome.Restarted?
        && (forall i: nat :: i < j && ReportAt(p, passes, i).restarted ==> RecoveredBetween(passes, i, j))
        && exists r <- passes[j].readings :: Uncontradicted(r) && FailsAgain(passes, j, r) {
      var r :| r in passes[j].readings && Uncontradicted(r) && FailsAgain(passes, j, r);
      NoRestartInStreak(p, passes, j, r);
      ThresholdIff(p, names, passes, j, r);
      NotAwaiting(p, passes, j);
      RestartDecided(RunAll(p, passes[..j]), passes[j], r);
    }
  }

  lemma RestartDecided(p: Project, pass: Pass, r: Reading)
    requires r in pass.readings && Uncontradicted(r) && AtThreshold(CountAll(p.counts, pass.readings), r)
    requires pass.outcome.Restarted? && !p.state.awaitingRecovery
    ensures Decided(p, pass).report.restarted
  {
    assert Confirmed(r);
  }

  lemma NoRestartInStreak(p: Project, passes: seq<Pass>, j: nat, r: Reading)
    requires j < |passes| && FailsAgain(passes, j, r)
    requires forall i: nat :: i < j && ReportAt(p, passes, i).restarted ==> RecoveredBetween(passes, i, j)
    ensures NoRestartIn(p, passes, j - (if r.seen.health.dns then 7 else 2), j)
  {
    hide ReportAt;
    hide FailedIn;
    hide AllHealthy;
    var n := if r.seen.health.dns then 8 else 3;
    forall k | 0 <= k < j && j - (n - 1) <= k ensures !ReportAt(p, passes, k).restarted {
      if ReportAt(p, passes, k).restarted {
        assert RecoveredBetween(passes, k, j);
        var m :| k < m < j && AllHealthy(passes[m].readings);
        FailureIsNoRecovery(passes[m], r.name);
        assert false;
      }
    }
  }

  /** A project awaits recovery exactly while no pass since some restart saw every probe healthy. */
  lemma AwaitingIff(p: Project, passes: seq<Pass>, j: nat)
    requires j <= |passes| && !p.state.awaitingRecovery
    ensures RunAll(p, passes[..j]).state.awaitingRecovery <==> exists i: nat :: RestartedSince(p, passes, i, j)
  {
    if RunAll(p, passes[..j]).state.awaitingRecovery {
      hide RunAll;
      MarkedByRestart(p, passes, j);
    } else if i: nat :| RestartedSince(p, passes, i, j) {
      PrefixOfPrefix(passes, i);
      MarksStay(p, passes, i + 1, j);
    }
  }

  lemma NotRecovered(p: Project, passes: seq<Pass>, i: nat, j: nat)
    ensures RestartedSince(p, passes, i, j) <==>
              i < j <= |passes| && ReportAt(p, passes, i).restarted
              && !AllHealthy(passes[i].readings) && !RecoveredBetween(passes, i, j)
  {
    hide ReportAt;
    hide AllHealthy;
  }

  lemma NotAwaiting(p: Project, passes: seq<Pass>, j: nat)
    requires j < |passes| && !p.state.awaitingRecovery
    requires forall i: nat :: i < j && ReportAt(p, passes, i).restarted ==> RecoveredBetween(passes, i, j)
    ensures !RunAll(p, passes[..j]).state.awaitingRecovery
  {
    AwaitingIff(p, passes, j);
    hide ReportAt;
    hide RunAll;
    hide RestartedSince;
    forall i: nat ensures !RestartedSince(p, passes, i, j) {
      NotRecovered(p, passes, i, j);
    }
  }

  /** Behind a restart no probe's count is above the number of passes since. */
  lemma {:induction false} CountSinceRestart(p: Project, names: seq<string>, passes: seq<Pass>, i: nat, j: nat, name: string)
    requires Configured(names, passes) && i < j <= |passes| && name in names && ReportAt(p, passes, i).restarted
    ensures Lookup(RunAll(p, passes[..j]).counts, name) <= j - i - 1
    decreases j
  {
    hide *;
    CountAfterPass(p, names, passes, j, name);
    if j > i + 1 {
      CountSinceRestart(p, names, passes, i, j - 1, name);
    }
  }

  lemma CountAfterPass(p: Project, names: seq<string>, passes: seq<Pass>, j: nat, name: string)
    requires Configured(names, passes) && 0 < j <= |passes| && name in names
    ensures Lookup(RunAll(p, passes[..j]).counts, name) <= Lookup(RunAll(p, passes[..j - 1]).counts, name) + 1
    ensures ReportAt(p, passes, j - 1).restarted ==> Lookup(RunAll(p, passes[..j]).counts, name) == 0
  {
    RunAllStep(p, passes, j);
    hide RunAll;
    hide ProjectPass;
    hide Decided;
    hide ReportAt;
    var before := RunAll(p, passes[..j - 1]);
    CountStep(before, names, passes[j - 1], name);
    if Decided(before, passes[j - 1]).report.restarted {
      RestartZeroes(before, names, passes[j - 1], name);
    }
  }

  lemma RestartZeroes(p: Project, names: seq<string>, pass: Pass, name: string)
    requires Decided(p, pass).report.restarted && Reads(names, pass.readings) && name in names
    ensures Lookup(ProjectPass(p, pass).counts, name) == 0
  {
    hide Decided;
    hide CountAll;
    ZeroedAll(CountAll(p.counts, pass.readings), names, pass.readings);
  }

  /** An alert was sent in pass `k`, and no pass from then on, before `j`, saw every probe healthy. */
  predicate AlertedSince(p: Project, passes: seq<Pass>, k: nat, j: nat) {
    k < j <= |passes| && ReportAt(p, passes, k).gaveUp && NoRecovery(passes, k, j)
  }

  /** The alert is marked exactly while no pass since it was sent saw every probe healthy. */
  lemma {:induction false} AlertedIff(p: Project, passes: seq<Pass>, j: nat)
    requires j <= |passes| && !p.state.gaveUpAlerted
    ensures RunAll(p, passes[..j]).state.gaveUpAlerted <==> exists k: nat :: AlertedSince(p, passes, k, j)
    decreases j
  {
    if j > 0 {
      var before := RunAll(p, passes[..j - 1]);
      RunAllStep(p, passes, j);
      AlertStep(before, passes[j - 1]);
      hide RunAll;
      hide ProjectPass;
      hide Decided;
      hide AllHealthy;
      hide ReportAt;
      hide AlertedSince;
      AlertedIff(p, passes, j - 1);
      forall k: nat
        ensures AlertedSince(p, passes, k, j) <==>
                  !AllHealthy(passes[j - 1].readings)
                  && (AlertedSince(p, passes, k, j - 1) || (k == j - 1 && ReportAt(p, passes, k).gaveUp))
      {
        AlertedStep(p, passes, k, j);
      }
      if ReportAt(p, passes, j - 1).gaveUp && !AllHealthy(passes[j - 1].readings) {
        assert AlertedSince(p, passes, j - 1, j);
      }
    }
  }

  lemma AlertedStep(p: Project, passes: seq<Pass>, k: nat, j: nat)
    requires 0 < j <= |passes|
    ensures AlertedSince(p, passes, k, j) <==>
              !AllHealthy(passes[j - 1].readings)
              && (AlertedSince(p, passes, k, j - 1) || (k == j - 1 && ReportAt(p, passes, k).gaveUp))
  {
    hide ReportAt;
    hide AllHealthy;
  }

  lemma AlertStep(p: Project, pass: Pass)
    ensures ProjectPass(p, pass).state.gaveUpAlerted <==>
              !AllHealthy(pass.readings) && (p.state.gaveUpAlerted || Decided(p, pass).report.gaveUp)
  {
  }

  /** The probe fails again in pass `j`, all its streak behind the restart in pass `i`, which nothing recovered from. */
  predicate FailsBehind(p: Project, passes: seq<Pass>, i: nat, j: nat, r: Reading)
    requires j < |passes|
  {
    RestartedSince(p, passes, i, j) && FailsAgain(passes, j, r) && j - i >= if r.seen.health.dns then 8 else 3
  }

  lemma GaveUpReport(p: Project, passes: seq<Pass>, j: nat)
    requires j < |passes|
    ensures var before := RunAll(p, passes[..j]);
            ReportAt(p, passes, j).gaveUp <==>
              before.state.awaitingRecovery && !before.state.gaveUpAlerted
              && exists r <- passes[j].readings :: AtThreshold(CountAll(before.counts, passes[j].readings), r)
  {
    GaveUpDecided(RunAll(p, passes[..j]), passes[j]);
  }

  /**
   * Exactly when a pass gives up on a restart: since that restart no pass saw every probe healthy, no alert was sent, and
   * some probe failed in three passes in a row, in eight if its name was not found, whatever Uptime Kuma says.
   */
  lemma GaveUpIff(p: Project, names: seq<string>, passes: seq<Pass>, j: nat)
    requires Configured(names, passes) && j < |passes|
    requires p.state == ProjectState(false, false) && forall name :: name in names ==> Lookup(p.counts, name) == 0
    ensures ReportAt(p, passes, j).gaveUp <==>
              (forall k: nat :: !AlertedSince(p, passes, k, j)) && exists i: nat, r :: FailsBehind(p, passes, i, j, r)
  {
    var before := RunAll(p, passes[..j]);
    AwaitingIff(p, passes, j);
    AlertedIff(p, passes, j);
    GaveUpReport(p, passes, j);
    hide RestartedSince;
    hide AlertedSince;
    hide FailsAgain;
    hide ReportAt;
    hide RunAll;
    hide Decided;
    if ReportAt(p, passes, j).gaveUp {
      var r :| r in passes[j].readings && AtThreshold(CountAll(before.counts, passes[j].readings), r);
      var i: nat :| RestartedSince(p, passes, i, j);
      ThresholdIff(p, names, passes, j, r);
      LongEnoughSince(p, names, passes, i, j, r);
      assert FailsBehind(p, passes, i, j, r);
    } else if i: nat, r :| FailsBehind(p, passes, i, j, r) {
      NoSecondRestart(p, passes, i, j);
      FailsAgainReads(passes, j, r);
      ThresholdIff(p, names, passes, j, r);
    }
  }

  lemma FailsAgainReads(passes: seq<Pass>, j: nat, r: Reading)
    requires j < |passes| && FailsAgain(passes, j, r)
    ensures r in passes[j].readings && r.seen.health.Down?
  {
  }

  lemma GaveUpDecided(p: Project, pass: Pass)
    ensures Decided(p, pass).report.gaveUp <==>
              p.state.awaitingRecovery && !p.state.gaveUpAlerted
              && exists r <- pass.readings :: AtThreshold(CountAll(p.counts, pass.readings), r)
  {
  }

  lemma LongEnoughSince(p: Project, names: seq<string>, passes: seq<Pass>, i: nat, j: nat, r: Reading)
    requires Configured(names, passes) && j < |passes| && RestartedSince(p, passes, i, j)
    requires r in passes[j].readings && AtThreshold(CountAll(RunAll(p, passes[..j]).counts, passes[j].readings), r)
    ensures j - i >= if r.seen.health.dns then 8 else 3
  {
    hide RunAll;
    hide ReportAt;
    hide CountAll;
    var before := RunAll(p, passes[..j]);
    CountsAfter(before.counts, names, passes[j].readings);
    var k :| 0 <= k < |names| && passes[j].readings[k] == r;
    assert names[k] in names;
    CountSinceRestart(p, names, passes, i, j, r.name);
  }

  lemma NoSecondRestart(p: Project, passes: seq<Pass>, i: nat, j: nat)
    requires j <= |passes| && RestartedSince(p, passes, i, j)
    ensures NoRestartIn(p, passes, i + 1, j)
  {
    hide ReportAt;
    hide AllHealthy;
    forall k | 0 <= k < j && i + 1 <= k ensures !ReportAt(p, passes, k).restarted {
      if ReportAt(p, passes, k).restarted {
        RecoveryBetweenRestarts(p, passes, i, k);
      }
    }
  }
}
