/**
 * Exposures become first-match access rules (backend/src/services/autheliaAccessControl.ts). Rules and users
 * file together decide each request exactly as the dashboard state says.
 */
module AccessPolicy {
  import opened Common
  import opened SsoUsers

  // ----- The access rules -----

  datatype GatedApp = GatedApp(hostname: string, group: string, bypassPaths: seq<string>)

  datatype Rule =
    | BypassRule(domain: string, resources: seq<string>)
    | OneFactorRule(domain: string, subjects: seq<string>)

  function Gate(e: Exposure): GatedApp {
    GatedApp(e.hostname, AppGroupName(e.service), e.bypassPaths)
  }

  function Gates(es: seq<Exposure>): (gated: seq<GatedApp>)
    ensures |gated| == |es|
    ensures forall i :: 0 <= i < |es| ==> gated[i] == Gate(es[i])
  {
    seq(|es|, i requires 0 <= i < |es| => Gate(es[i]))
  }

  method GetGatedSecondaryExposures(rows: seq<ExposureRow>, registry: Registry) returns (gated: seq<GatedApp>)
    ensures gated == Gates(SecondaryExposures(rows, registry))
  {
    gated := [];
    var i := 0;
    while i < |rows|
      invariant 0 <= i <= |rows|
      invariant gated == Gates(SecondaryExposures(rows[..i], registry))
    {
      var row := rows[i];
      assert rows[..i + 1][..i] == rows[..i];
      var name := Head(row.serviceName);
      if name in registry && ProtectionRequired(registry, name) {
        var extra := FindExtra(registry[name].extras, Second(row.serviceName));
        if extra.Some? && extra.value.autheliaProtected {
          gated := gated + [GatedApp(row.hostname, AppGroupName(name), registry[name].bypassPaths)];
        }
      }
      i := i + 1;
    }
    assert rows[..i] == rows;
  }

  /** The rules one gated app contributes: its bypass, if any, goes first. */
  function AppRules(app: GatedApp): seq<Rule> {
    (if app.bypassPaths == [] then [] else [BypassRule(app.hostname, app.bypassPaths)]) +
    [OneFactorRule(app.hostname, ["group:admins", "group:" + app.group])]
  }

  function GatedRules(gated: seq<GatedApp>): seq<Rule> {
    if gated == [] then [] else AppRules(gated[0]) + GatedRules(gated[1..])
  }

  function PortalRules(portal: Option<string>): seq<Rule> {
    if Truthy(portal) then [BypassRule(portal.value, [])] else []
  }

  function Rules(portal: Option<string>, gated: seq<GatedApp>): seq<Rule> {
    PortalRules(portal) + GatedRules(gated)
  }

  // ----- First-match evaluation of the rules over the users file -----

  function GroupsInFile(file: map<string, Entry>, user: string): set<string> {
    if user in file then file[user].groups else {}
  }

  predicate SubjectAdmits(subject: string, groups: set<string>) {
    |subject| >= 6 && subject[..6] == "group:" && subject[6..] in groups
  }

  predicate Applies(rule: Rule, groups: set<string>, req: Request, matches: Matcher) {
    && rule.domain == req.host
    && match rule
       case BypassRule(_, resources) => resources == [] || MatchesAny(resources, req.path, matches)
       case OneFactorRule(_, subjects) => exists s | s in subjects :: SubjectAdmits(s, groups)
  }

  /** The policy of the first rule that applies; `default_policy: deny` when none does. */
  function Evaluate(rules: seq<Rule>, groups: set<string>, req: Request, matches: Matcher): Decision {
    if rules == [] then Denied
    else if Applies(rules[0], groups, req, matches) then if rules[0].BypassRule? then Bypassed else OneFactor
    else Evaluate(rules[1..], groups, req, matches)
  }

  // ----- Compilation preserves meaning -----

  lemma {:induction false} EvaluateConcat(a: seq<Rule>, b: seq<Rule>, groups: set<string>, req: Request, matches: Matcher)
    ensures Evaluate(a + b, groups, req, matches) ==
            if Evaluate(a, groups, req, matches) == Denied then Evaluate(b, groups, req, matches)
            else Evaluate(a, groups, req, matches)
  {
    if a == [] {
      assert a + b == b;
    } else {
      assert (a + b)[0] == a[0] && (a + b)[1..] == a[1..] + b;
      EvaluateConcat(a[1..], b, groups, req, matches);
    }
  }

  /** What the compiled pair of files decides for the rules of one exposure. */
  lemma AppRulesMeanVerdict(
    e: Exposure, rows: seq<UserRow>, options: seq<AppOption>, existing: map<string, string>,
    user: string, req: Request, matches: Matcher)
    requires DistinctUsers(rows) && BenignGroups(options)
    ensures Evaluate(AppRules(Gate(e)), GroupsInFile(Entries(rows, options, existing), user), req, matches) ==
            Verdict(e, rows, user, req, matches)
  {
    var groups := GroupsInFile(Entries(rows, options, existing), user);
    SubjectsAdmitted(e.service, rows, options, existing, user);
    var one := OneFactorRule(e.hostname, ["group:admins", "group:" + AppGroupName(e.service)]);
    var rules := AppRules(Gate(e));
    assert Evaluate([one], groups, req, matches) ==
           if e.hostname == req.host && Admitted(rows, user, e.service) then OneFactor else Denied by {
      SubjectsOfRule(AppGroupName(e.service), groups);
    }
    if e.bypassPaths == [] {
      assert rules == [one];
    } else {
      assert rules[1..] == [one];
    }
  }

  lemma SubjectsOfRule(group: string, groups: set<string>)
    ensures (exists s | s in ["group:admins", "group:" + group] :: SubjectAdmits(s, groups)) <==>
            "admins" in groups || group in groups
  {
    var a, g := "group:admins", "group:" + group;
    assert a[6..] == "admins" && a[..6] == "group:" && g[6..] == group && g[..6] == "group:";
    assert a in [a, g] && g in [a, g];
  }

  lemma SubjectsAdmitted(
    service: string, rows: seq<UserRow>, options: seq<AppOption>, existing: map<string, string>, user: string)
    requires DistinctUsers(rows) && BenignGroups(options)
    ensures var groups := GroupsInFile(Entries(rows, options, existing), user);
            ("admins" in groups || AppGroupName(service) in groups) <==> Admitted(rows, user, service)
  {
    hide GroupsOf;
    EntryOfUser(rows, options, existing, user);
    if user in Entries(rows, options, existing) {
      var row :| row in rows && row.username == user && Eligible(row);
      GroupsAdmit(row, options, service);
      if Admitted(rows, user, service) {
        var other :| other in rows && other.username == user && Eligible(other) &&
          ("webmaster" in other.roles || service in other.appAccess);
        assert other == row;
      }
    }
  }

  /** The verdict of the first exposure with anything to say. */
  function FirstVerdict(es: seq<Exposure>, rows: seq<UserRow>, user: string, req: Request, matches: Matcher): Decision {
    if es == [] then Denied
    else if Verdict(es[0], rows, user, req, matches) != Denied then Verdict(es[0], rows, user, req, matches)
    else FirstVerdict(es[1..], rows, user, req, matches)
  }

  /** For every list of exposures, hostnames shared or not: the rules decide as the exposures do in order. */
  lemma {:induction false} GatedRulesMeanExposures(
    es: seq<Exposure>, rows: seq<UserRow>, options: seq<AppOption>, existing: map<string, string>,
    user: string, req: Request, matches: Matcher)
    requires DistinctUsers(rows) && BenignGroups(options)
    ensures Evaluate(GatedRules(Gates(es)), GroupsInFile(Entries(rows, options, existing), user), req, matches) ==
            FirstVerdict(es, rows, user, req, matches)
  {
    if es != [] {
      var groups := GroupsInFile(Entries(rows, options, existing), user);
      assert Gates(es)[1..] == Gates(es[1..]);
      EvaluateConcat(AppRules(Gate(es[0])), GatedRules(Gates(es[1..])), groups, req, matches);
      AppRulesMeanVerdict(es[0], rows, options, existing, user, req, matches);
      GatedRulesMeanExposures(es[1..], rows, options, existing, user, req, matches);
    }
  }

  predicate DistinctHosts(es: seq<Exposure>) {
    forall i, j :: 0 <= i < j < |es| ==> es[i].hostname != es[j].hostname
  }

  lemma {:induction false} FirstVerdictByHost(
    es: seq<Exposure>, i: nat, rows: seq<UserRow>, user: string, req: Request, matches: Matcher)
    requires DistinctHosts(es)
    requires i < |es| ==> es[i].hostname == req.host
    requires i >= |es| ==> forall k :: 0 <= k < |es| ==> es[k].hostname != req.host
    ensures FirstVerdict(es, rows, user, req, matches) ==
            if i < |es| then Verdict(es[i], rows, user, req, matches) else Denied
  {
    if es != [] {
      if i == 0 {
        forall k | 0 <= k < |es[1..]| ensures es[1..][k].hostname != req.host {
          assert es[1..][k] == es[k + 1];
        }
        FirstVerdictByHost(es[1..], |es|, rows, user, req, matches);
      } else {
        assert es[0].hostname != req.host;
        FirstVerdictByHost(es[1..], i - 1, rows, user, req, matches);
      }
    }
  }

  /**
   * The compiled rules over the compiled users file: `bypass` exactly on the portal or on a bypass path
   * of the exposure that owns the hostname; otherwise `one_factor` exactly when the account is in the
   * file and is a webmaster or was granted that exposure's app; otherwise `deny`.
   */
  lemma CompiledPolicyMeansDashboardState(
    portal: Option<string>, options: seq<AppOption>, secondary: seq<ExposureRow>, registry: Registry,
    rows: seq<UserRow>, existing: map<string, string>, user: string, req: Request, matches: Matcher)
    requires DistinctUsers(rows) && BenignGroups(options)
    requires var es := Exposures(options, secondary, registry);
             DistinctHosts(es) && forall e :: e in es ==> Some(e.hostname) != portal
    ensures var es := Exposures(options, secondary, registry);
            var decision := Evaluate(Rules(portal, Gates(es)),
                                     GroupsInFile(Entries(rows, options, existing), user), req, matches);
            && (decision == Bypassed <==>
                (Truthy(portal) && portal.value == req.host) ||
                exists e :: e in es && e.hostname == req.host && MatchesAny(e.bypassPaths, req.path, matches))
            && (decision == OneFactor <==>
                decision != Bypassed &&
                exists e :: e in es && e.hostname == req.host && Admitted(rows, user, e.service))
  {
    var es := Exposures(options, secondary, registry);
    var groups := GroupsInFile(Entries(rows, options, existing), user);
    EvaluateConcat(PortalRules(portal), GatedRules(Gates(es)), groups, req, matches);
    GatedRulesMeanExposures(es, rows, options, existing, user, req, matches);
    if i :| 0 <= i < |es| && es[i].hostname == req.host {
      FirstVerdictByHost(es, i, rows, user, req, matches);
      forall e | e in es && e.hostname == req.host ensures e == es[i] {
        var k :| 0 <= k < |es| && es[k] == e;
        assert k == i;
      }
      assert es[i] in es;
    } else {
      FirstVerdictByHost(es, |es|, rows, user, req, matches);
    }
  }
}
