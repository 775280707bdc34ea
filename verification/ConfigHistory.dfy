/**
 * Authelia's configuration file over any number of regenerations: only the last rules and the last clients
 * show, and what the file says about a request is what the dashboard said when the rules were rendered.
 */
module ConfigHistory {
  import opened Common
  import opened Strings
  import opened TextSearch
  import opened SsoUsers
  import opened AccessPolicy
  import opened AccessText
  import opened ConfigSplice
  import opened SpliceCommute
  import opened AutheliaConfig

  datatype Regeneration = OfRules(rules: seq<Rule>) | OfClients(clients: seq<Client>)

  /** Nothing rendered could be taken for a marker. */
  predicate Fit(e: Regeneration) {
    match e
    case OfRules(rules) => forall r :: r in rules ==> TameRule(r)
    case OfClients(clients) => forall c :: c in clients ==> TameClient(c)
  }

  function Regenerate(t: string, e: Regeneration): string {
    match e
    case OfRules(rules) => SpliceAccess(t, ACCESS, AccessBlock(rules))
    case OfClients(clients) => SpliceOidc(t, OIDC, OidcBlock(clients))
  }

  function Run(t: string, es: seq<Regeneration>): string {
    if es == [] then t else Regenerate(Run(t, es[..|es| - 1]), es[|es| - 1])
  }

  function LastRules(es: seq<Regeneration>): Option<seq<Rule>> {
    if es == [] then None
    else if es[|es| - 1].OfRules? then Some(es[|es| - 1].rules)
    else LastRules(es[..|es| - 1])
  }

  function LastClients(es: seq<Regeneration>): Option<seq<Client>> {
    if es == [] then None
    else if es[|es| - 1].OfClients? then Some(es[|es| - 1].clients)
    else LastClients(es[..|es| - 1])
  }

  function WithRules(t: string, rules: Option<seq<Rule>>): string {
    if rules.Some? then Regenerate(t, OfRules(rules.value)) else t
  }

  function WithClients(t: string, clients: Option<seq<Client>>): string {
    if clients.Some? then Regenerate(t, OfClients(clients.value)) else t
  }

  /** A regeneration keeps both markers in their places and the two blocks apart. */
  lemma TidyStays(t: string, e: Regeneration)
    requires Tidy(t) && Fit(e)
    ensures Tidy(Regenerate(t, e))
  {
    hide AccessBlock;
    hide OidcBlock;
    hide IsBlock;
    hide Inert;
    hide WellPlaced;
    hide Apart;
    hide Good;
    hide SpliceAccess;
    hide SpliceOidc;
    AccessMarksAreGood();
    OidcMarksAreGood();
    MarkStarts();
    match e
    case OfRules(rules) =>
      var a := AccessBlock(rules);
      AccessBlockIsInert(rules);
      LastAccessSpliceWins(t, ACCESS, a, a);
      OtherMarkerStays(t, a);
      AccessSpliceStaysApart(t, ACCESS, OIDC, a);
    case OfClients(clients) =>
      var o := OidcBlock(clients);
      OidcBlockIsInert(clients);
      LastOidcSpliceWins(t, OIDC, o, o);
      AccessMarkerStays(t, o);
      OidcSpliceStaysApart(t, ACCESS, OIDC, o);
  }

  lemma OtherMarkerStays(t: string, a: string)
    requires Good(ACCESS) && Good(OIDC) && Tidy(t) && Inert(a, OIDC, CLIENTS_KEY)
    ensures WellPlaced(SpliceAccess(t, ACCESS, a), OIDC)
  {
    hide Good;
    hide Inert;
    hide SpliceAccess;
    hide Apart;
    hide WellPlaced;
    OidcSiteAfterAccess(t, ACCESS, OIDC, a);
  }

  lemma AccessMarkerStays(t: string, o: string)
    requires Good(ACCESS) && Good(OIDC) && OIDC.begin[0] == ' ' && Tidy(t) && Inert(o, ACCESS, ACCESS_KEY)
    ensures WellPlaced(SpliceOidc(t, OIDC, o), ACCESS)
  {
    hide Good;
    hide Inert;
    hide Apart;
    hide WellPlaced;
    hide OidcSite;
    if OidcSite(t, OIDC).Some? {
      AccessSiteAfterOidc(t, ACCESS, OIDC, o);
    }
  }

  lemma LastOfAKindWins(t: string, e: Regeneration, f: Regeneration)
    requires Tidy(t) && Fit(e) && (e.OfRules? <==> f.OfRules?)
    ensures Regenerate(Regenerate(t, e), f) == Regenerate(t, f)
  {
    hide AccessBlock;
    hide OidcBlock;
    hide IsBlock;
    hide Inert;
    hide WellPlaced;
    hide Apart;
    hide Good;
    hide SpliceAccess;
    hide SpliceOidc;
    AccessMarksAreGood();
    OidcMarksAreGood();
    match e
    case OfRules(rules) =>
      AccessBlockIsInert(rules);
      LastAccessSpliceWins(t, ACCESS, AccessBlock(rules), AccessBlock(f.rules));
    case OfClients(clients) =>
      OidcBlockIsInert(clients);
      LastOidcSpliceWins(t, OIDC, OidcBlock(clients), OidcBlock(f.clients));
  }

  /** However often and in whatever order rules and clients are regenerated, only the last of each shows. */
  lemma {:induction false} OnlyTheLastShow(t: string, es: seq<Regeneration>)
    requires Tidy(t) && forall e :: e in es ==> Fit(e)
    ensures Run(t, es) == WithClients(WithRules(t, LastRules(es)), LastClients(es))
    ensures Run(t, es) == WithRules(WithClients(t, LastClients(es)), LastRules(es))
    ensures Tidy(Run(t, es)) && Tidy(WithRules(t, LastRules(es))) && Tidy(WithClients(t, LastClients(es)))
    ensures LastRules(es).Some? ==> Fit(OfRules(LastRules(es).value))
    ensures LastClients(es).Some? ==> Fit(OfClients(LastClients(es).value))
  {
    hide Fit;
    hide Tidy;
    hide Regenerate;
    if es != [] {
      var init, e := es[..|es| - 1], es[|es| - 1];
      assert e in es && forall x :: x in init ==> x in es;
      OnlyTheLastShow(t, init);
      var r, c := LastRules(init), LastClients(init);
      TidyStays(Run(t, init), e);
      TidyStays(t, e);
      if e.OfRules? {
        if r.Some? {
          LastOfAKindWins(WithClients(t, c), OfRules(r.value), e);
        }
        if c.Some? {
          EitherOrder(t, e.rules, c.value);
        }
      } else {
        if c.Some? {
          LastOfAKindWins(WithRules(t, r), OfClients(c.value), e);
        }
        if r.Some? {
          EitherOrder(t, r.value, e.clients);
        }
      }
    }
  }

  lemma EitherOrder(t: string, rules: seq<Rule>, clients: seq<Client>)
    requires Tidy(t) && Fit(OfRules(rules)) && Fit(OfClients(clients))
    ensures Regenerate(Regenerate(t, OfRules(rules)), OfClients(clients)) ==
            Regenerate(Regenerate(t, OfClients(clients)), OfRules(rules))
  {
    hide Tidy;
    hide AccessBlock;
    hide OidcBlock;
    hide SpliceAccess;
    hide SpliceOidc;
    RegenerationsCommute(t, rules, clients);
  }

  // ----- Reading the policy back out of the file -----

  function LinesOf(t: string): seq<string> {
    if t == "" then []
    else
      var i := IndexOf(t, '\n');
      if i == |t| then [t] else [t[..i]] + LinesOf(t[i + 1..])
  }

  /** The rules under the marked `access_control:` key, if the file holds such a block and it can be read. */
  function ReadPolicy(t: string): Option<seq<Rule>> {
    match MarkedSite(t, ACCESS)
    case None => None
    case Some(s) =>
      var lines := LinesOf(t[s.from..s.to]);
      if |lines| < 5 || lines[1..4] != ["access_control:", "  default_policy: deny", "  rules:"] then None
      else ReadRules(lines[4..|lines| - 1])
  }

  lemma {:induction false} LinesOfUnlines(lines: seq<string>)
    requires forall l :: l in lines ==> '\n' !in l
    ensures LinesOf(Unlines(lines)) == lines
  {
    if lines != [] {
      var rest := Unlines(lines[1..]);
      assert lines[0] in lines;
      LinesOfUnlines(lines[1..]);
      IndexIs(lines[0], '\n', rest);
      Cut(lines[0], "\n", rest);
      assert [lines[0]] + lines[1..] == lines;
    }
  }

  lemma {:induction false} UnlinesAppend(a: seq<string>, b: seq<string>)
    ensures Unlines(a + b) == Unlines(a) + Unlines(b)
  {
    if a == [] {
      assert a + b == b;
    } else {
      UnlinesAppend(a[1..], b);
      assert (a + b)[0] == a[0] && (a + b)[1..] == a[1..] + b;
      Assoc(a[0] + "\n", Unlines(a[1..]), Unlines(b));
    }
  }

  /** A block is the text of its lines between the two marker lines. */
  lemma BlockLines(m: Marks, lines: seq<string>)
    ensures BlockText(m, lines) == Unlines([m.begin] + lines + [m.end])
  {
    UnlinesOfOne(m.begin);
    UnlinesOfOne(m.end);
    UnlinesAppend([m.begin] + lines, [m.end]);
    UnlinesAppend([m.begin], lines);
    Assoc(m.begin, "\n", Unlines(lines));
    Assoc(m.begin + ("\n" + Unlines(lines)), m.end, "\n");
  }

  lemma UnlinesOfOne(l: string)
    ensures Unlines([l]) == l + "\n"
  {
    assert [l][1..] == [];
  }

  lemma BlockReadsBack(lines: seq<string>)
    requires forall l :: l in lines ==> '\n' !in l
    requires |lines| >= 3 && lines[..3] == ["access_control:", "  default_policy: deny", "  rules:"]
    ensures var all := LinesOf(BlockText(ACCESS, lines));
            |all| == |lines| + 2 && all[1..4] == lines[..3] && all[4..|all| - 1] == lines[3..]
  {
    hide LinesOf;
    hide BlockText;
    BlockLines(ACCESS, lines);
    AccessMarksAreGood();
    BreaksByChar(ACCESS.begin);
    BreaksByChar(ACCESS.end);
    var all := [ACCESS.begin] + lines + [ACCESS.end];
    LinesOfUnlines(all);
    assert all[1..4] == lines[..3];
    assert all[4..|all| - 1] == lines[3..];
  }

  /** The rules just spliced in are read back, wherever the block went. */
  lemma WrittenPolicyReadsBack(t: string, rules: seq<Rule>)
    requires WellPlaced(t, ACCESS)
    requires forall r :: r in rules ==> TameRule(r) && Plain(r)
    ensures ReadPolicy(SpliceAccess(t, ACCESS, AccessBlock(rules))) == Some(rules)
  {
    hide IsBlock;
    hide Inert;
    hide WellPlaced;
    hide Good;
    hide BlockText;
    hide LinesOf;
    hide ReadRules;
    hide Tame;
    hide MarkedSite;
    AccessMarksAreGood();
    AccessBlockIsInert(rules);
    AccessLinesAreTame(rules);
    var block, lines := AccessBlock(rules), AccessLines(rules);
    forall l | l in lines ensures '\n' !in l {
      TameIsOneLine(l);
    }
    BlockReadsBack(lines);
    ReadRulesInvertsRendering(rules);
    BlockIsMarked(t, block);
  }

  lemma TameIsOneLine(l: string)
    requires Tame(l)
    ensures '\n' !in l
  {
    BreaksByChar(l);
  }

  lemma BlockIsMarked(t: string, block: string)
    requires Good(ACCESS) && WellPlaced(t, ACCESS) && IsBlock(block, ACCESS)
    ensures var after := SpliceAccess(t, ACCESS, block);
            var s := MarkedSite(after, ACCESS);
            s.Some? && after[s.value.from..s.value.to] == block
  {
    hide IsBlock;
    hide WellPlaced;
    hide Good;
    hide MarkedSite;
    var s := AccessSite(t, ACCESS);
    AccessSiteIsClean(t, ACCESS);
    MarkedSiteOfBlock(t[..s.from], block, s.gap + t[s.to..], ACCESS);
    Assoc(t[..s.from] + block, s.gap, t[s.to..]);
    Cut(t[..s.from], block, s.gap + t[s.to..]);
  }

  /**
   * From the dashboard's tables to the file Authelia runs on: after any run of regenerations, reading the
   * managed block and evaluating it over the users file decides every request as the dashboard state did when
   * the rules were last rendered.
   */
  lemma ConfigurationMeansDashboardState(
    t: string, es: seq<Regeneration>,
    portal: Option<string>, options: seq<AppOption>, secondary: seq<ExposureRow>, registry: Registry,
    rows: seq<UserRow>, existing: map<string, string>, user: string, req: Request, matches: Matcher)
    requires Tidy(t) && forall e :: e in es ==> Fit(e)
    requires LastRules(es) == Some(Rules(portal, Gates(Exposures(options, secondary, registry))))
    requires forall r :: r in LastRules(es).value ==> Plain(r)
    requires DistinctUsers(rows) && BenignGroups(options)
    requires var exposed := Exposures(options, secondary, registry);
             DistinctHosts(exposed) && forall e :: e in exposed ==> Some(e.hostname) != portal
    ensures ReadPolicy(Run(t, es)) == LastRules(es)
    ensures var exposed := Exposures(options, secondary, registry);
            var decision := Evaluate(ReadPolicy(Run(t, es)).value,
                                     GroupsInFile(Entries(rows, options, existing), user), req, matches);
            && (decision == Bypassed <==>
                (Truthy(portal) && portal.value == req.host) ||
                exists e :: e in exposed && e.hostname == req.host && MatchesAny(e.bypassPaths, req.path, matches))
            && (decision == OneFactor <==>
                decision != Bypassed &&
                exists e :: e in exposed && e.hostname == req.host && Admitted(rows, user, e.service))
  {
    hide Rules;
    hide Evaluate;
    hide ReadPolicy;
    hide SpliceAccess;
    hide AccessBlock;
    hide Exposures;
    hide Plain;
    hide WellPlaced;
    hide Apart;
    hide Run;
    OnlyTheLastShow(t, es);
    WrittenPolicyReadsBack(WithClients(t, LastClients(es)), LastRules(es).value);
    CompiledPolicyMeansDashboardState(portal, options, secondary, registry, rows, existing, user, req, matches);
  }
}
