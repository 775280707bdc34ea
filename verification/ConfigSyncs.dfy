/** Authelia's configuration file while the two generators sync it, one sync at a time and with syncs that overlap. */
module ConfigSyncs {
  import opened Common
  import opened AccessPolicy
  import opened AccessText
  import opened TextSearch
  import opened ConfigSplice
  import opened SpliceCommute
  import opened AutheliaConfig
  import opened ConfigHistory

  // ----- The rules a history shows -----

  /** What is rendered neither looks like a marker nor holds a quote. */
  predicate Clean(e: Regeneration) {
    Fit(e) && (e.OfRules? ==> forall r :: r in e.rules ==> Plain(r))
  }

  predicate AllClean(es: seq<Regeneration>) {
    forall e :: e in es ==> Clean(e)
  }

  /** The last rules regenerated, or those the text began with. */
  function PolicyOf(t: string, es: seq<Regeneration>): Option<seq<Rule>> {
    match LastRules(es)
    case None => ReadPolicy(t)
    case Some(rules) => Some(rules)
  }

  /** Putting in clients leaves the rules as they are read, wherever the two blocks are. */
  lemma ClientsLeavePolicy(t: string, clients: seq<Client>)
    requires Tidy(t) && forall c :: c in clients ==> TameClient(c)
    ensures ReadPolicy(Regenerate(t, OfClients(clients))) == ReadPolicy(t)
  {
    hide AccessBlock;
    hide OidcBlock;
    hide IsBlock;
    hide OidcSite;
    hide AccessSite;
    AccessMarksAreGood();
    OidcMarksAreGood();
    MarkStarts();
    OidcBlockIsInert(clients);
    if OidcSite(t, OIDC).Some? {
      BlockLeavesPolicy(t, OidcBlock(clients));
    }
  }

  lemma BlockLeavesPolicy(t: string, o: string)
    requires Good(ACCESS) && Good(OIDC) && OIDC.begin[0] == ' '
    requires Tidy(t) && Inert(o, ACCESS, ACCESS_KEY) && OidcSite(t, OIDC).Some?
    ensures ReadPolicy(SpliceOidc(t, OIDC, o)) == ReadPolicy(t)
  {
    var so := OidcSite(t, OIDC).value;
    OidcHole(t, OIDC);
    FillHole(t, so, o);
    assert o + so.gap == o;
    hide OidcSite;
    hide MarkedSite;
    hide Find;
    hide Fill;
    hide Good;
    hide Aligned;
    hide ReadPolicy;
    if !Free(t, ACCESS.Begin()) {
      PlacedSite(t, ACCESS);
      AccessSiteAfterOidc(t, ACCESS, OIDC, o);
    }
    SwapLeavesPolicy(t[..so.from], t[so.from..so.to], o, t[so.to..]);
  }

  /** Whole lines beside the marked rules do not matter to how these read. */
  lemma SwapLeavesPolicy(a: string, x: string, x': string, b: string)
    requires Good(ACCESS) && Aligned(a) && Aligned(x) && Aligned(x') && Free(x', ACCESS.Begin())
    requires WellPlaced(a + x + b, ACCESS)
    requires var s := MarkedSite(a + x + b, ACCESS);
             s.Some? ==> s.value.to <= |a| || |a| + |x| <= s.value.from
    ensures ReadPolicy(a + x' + b) == ReadPolicy(a + x + b)
  {
    hide ReadPolicy;
    hide MarkedSite;
    hide Find;
    hide Good;
    hide Aligned;
    hide WellPlaced;
    if Free(a + x + b, ACCESS.Begin()) {
      UnmarkedStays(a, x, x', b, ACCESS);
      UnmarkedSaysNothing(a + x + b);
      UnmarkedSaysNothing(a + x' + b);
    } else {
      MarkedStays(a, x, x', b, ACCESS);
      var s := MarkedSite(a + x + b, ACCESS).value;
      if s.to <= |a| {
        SlicesInHead(a, x, x', b, s.from, s.to);
      } else {
        SlicesInTail(a, x, x', b, s.from, s.to);
      }
      SameBlockSaysTheSame(a + x + b, a + x' + b);
    }
  }

  lemma UnmarkedSaysNothing(t: string)
    requires MarkedSite(t, ACCESS).None?
    ensures ReadPolicy(t) == None
  {
  }

  lemma SameBlockSaysTheSame(t: string, t': string)
    requires var s, s' := MarkedSite(t, ACCESS), MarkedSite(t', ACCESS);
             s.Some? && s'.Some? && t[s.value.from..s.value.to] == t'[s'.value.from..s'.value.to]
    ensures ReadPolicy(t') == ReadPolicy(t)
  {
    hide MarkedSite;
  }

  /** What the file says after any history. */
  lemma PolicyOfRun(t: string, es: seq<Regeneration>)
    requires Tidy(t) && AllClean(es)
    ensures ReadPolicy(Run(t, es)) == PolicyOf(t, es) && Tidy(Run(t, es))
  {
    OnlyTheLastShow(t, es);
    hide Tidy;
    hide Run;
    hide ReadPolicy;
    if LastRules(es).Some? {
      LastRulesAmong(es);
      TidyIsPlaced(WithClients(t, LastClients(es)));
      WrittenPolicyReadsBack(WithClients(t, LastClients(es)), LastRules(es).value);
    } else if LastClients(es).Some? {
      ClientsLeavePolicy(t, LastClients(es).value);
    }
  }

  lemma TidyIsPlaced(t: string)
    requires Tidy(t)
    ensures WellPlaced(t, ACCESS)
  {
  }

  lemma {:induction false} LastRulesAmong(es: seq<Regeneration>)
    requires LastRules(es).Some?
    ensures OfRules(LastRules(es).value) in es
  {
    if !es[|es| - 1].OfRules? {
      LastRulesAmong(es[..|es| - 1]);
    }
  }

  // ----- One sync at a time -----

  /** A sync, and whether Authelia refuses the text it would write. */
  datatype Sync = Sync(e: Regeneration, rejected: bool)

  function Accepted(syncs: seq<Sync>): (es: seq<Regeneration>) {
    if syncs == [] then []
    else
      var last := syncs[|syncs| - 1];
      Accepted(syncs[..|syncs| - 1]) + if last.rejected then [] else [last.e]
  }

  /** How many regenerations of a history changed the text. */
  function Moves(t: string, es: seq<Regeneration>): nat {
    if es == [] then 0
    else Moves(t, es[..|es| - 1]) + if Run(t, es) != Run(t, es[..|es| - 1]) then 1 else 0
  }

  lemma AcceptedStep(t: string, syncs: seq<Sync>, k: nat)
    requires k < |syncs|
    ensures var before, after := Accepted(syncs[..k]), Accepted(syncs[..k + 1]);
            if syncs[k].rejected then after == before
            else
              && Run(t, after) == Regenerate(Run(t, before), syncs[k].e)
              && Moves(t, after) == Moves(t, before) + if Run(t, after) != Run(t, before) then 1 else 0
  {
    hide Regenerate;
    assert syncs[..k + 1][..k] == syncs[..k];
    var before := Accepted(syncs[..k]);
    assert (before + [syncs[k].e])[..|before|] == before && before + [] == before;
  }

  method Apply(file: ConfigFile, sync: Sync)
    modifies file
    ensures file.text == if sync.rejected then old(file.text) else Regenerate(old(file.text), sync.e)
    ensures file.restarts == old(file.restarts) + if file.text != old(file.text) then 1 else 0
  {
    match sync.e
    case OfRules(rules) => var _ := file.SyncAccessControl(rules, sync.rejected);
    case OfClients(clients) => var _ := file.SyncOidcClients(clients, sync.rejected);
  }

  /** Syncs one after the other: the file is the history of the accepted ones, and each that moved it is a restart. */
  method RunSyncs(text: string, syncs: seq<Sync>) returns (after: string, restarts: nat)
    ensures after == Run(text, Accepted(syncs))
    ensures restarts == Moves(text, Accepted(syncs))
  {
    var file := new ConfigFile(text);
    assert syncs[..0] == [];
    hide Regenerate;
    for k := 0 to |syncs|
      invariant fresh(file)
      invariant file.text == Run(text, Accepted(syncs[..k]))
      invariant file.restarts == Moves(text, Accepted(syncs[..k]))
    {
      hide Run;
      hide Moves;
      hide Accepted;
      AcceptedStep(text, syncs, k);
      Apply(file, syncs[k]);
    }
    assert syncs[..|syncs|] == syncs;
    return file.text, file.restarts;
  }

  /** The regeneration renders what the last one of its kind rendered. */
  predicate Repeats(es: seq<Regeneration>, e: Regeneration) {
    match e
    case OfRules(rules) => LastRules(es) == Some(rules)
    case OfClients(clients) => LastClients(es) == Some(clients)
  }

  function News(es: seq<Regeneration>): nat {
    if es == [] then 0
    else News(es[..|es| - 1]) + if Repeats(es[..|es| - 1], es[|es| - 1]) then 0 else 1
  }

  lemma RepeatMovesNothing(t: string, es: seq<Regeneration>, e: Regeneration)
    requires Tidy(t) && AllClean(es) && Clean(e) && Repeats(es, e)
    ensures Run(t, es + [e]) == Run(t, es)
  {
    var more := es + [e];
    assert more[..|more| - 1] == es;
    OnlyTheLastShow(t, es);
    OnlyTheLastShow(t, more);
  }

  /** Authelia is never restarted more often than an accepted regeneration renders something new. */
  lemma {:induction false} RestartsOnlyForNews(t: string, es: seq<Regeneration>)
    requires Tidy(t) && AllClean(es)
    ensures Moves(t, es) <= News(es)
  {
    if es != [] {
      hide Run;
      hide Clean;
      hide Repeats;
      var init, e := es[..|es| - 1], es[|es| - 1];
      assert init + [e] == es && e in es;
      RestartsOnlyForNews(t, init);
      if Repeats(init, e) {
        RepeatMovesNothing(t, init, e);
      }
    }
  }

  /** Once rules were regenerated, others restart Authelia exactly when they are not the same. */
  lemma RulesRestartIff(t: string, es: seq<Regeneration>, rules: seq<Rule>)
    requires Tidy(t) && AllClean(es) && Clean(OfRules(rules)) && LastRules(es).Some?
    ensures Run(t, es + [OfRules(rules)]) != Run(t, es) <==> LastRules(es) != Some(rules)
  {
    var more := es + [OfRules(rules)];
    assert more[..|more| - 1] == es;
    if LastRules(es) == Some(rules) {
      RepeatMovesNothing(t, es, OfRules(rules));
    } else {
      hide Run;
      hide ReadPolicy;
      PolicyOfRun(t, es);
      PolicyOfRun(t, more);
    }
  }

  // ----- Syncs that overlap -----

  /** A sync that has read the file and waits for Authelia's verdict; `base` is the history it read. */
  datatype Pending = Pending(e: Regeneration, base: seq<Regeneration>, next: string)

  /** The file, the history it shows, and the syncs under way. */
  datatype Config = Config(text: string, shown: seq<Regeneration>, pending: seq<Pending>, restarts: nat)

  datatype Step =
    | Reads(e: Regeneration)
    | Answers(job: nat, rejected: bool)
    | Dies

  function Advance(c: Config, s: Step): Config {
    match s
    case Reads(e) =>
      var next := Regenerate(c.text, e);
      if next == c.text then c else c.(pending := c.pending + [Pending(e, c.shown, next)])
    case Answers(job, rejected) =>
      if job >= |c.pending| then c
      else
        var p := c.pending[job];
        var left := c.pending[..job] + c.pending[job + 1..];
        if rejected then c.(pending := left) else Config(p.next, p.base + [p.e], left, c.restarts + 1)
    case Dies => c.(pending := [])
  }

  function After(c: Config, steps: seq<Step>): Config
    decreases |steps|
  {
    if steps == [] then c else After(Advance(c, steps[0]), steps[1..])
  }

  lemma AfterStep(c: Config, s: Step, rest: seq<Step>)
    ensures After(c, [s] + rest) == After(Advance(c, s), rest)
  {
    assert ([s] + rest)[1..] == rest;
  }

  /** A sync nothing comes in between of is one step. */
  lemma SyncAlone(c: Config, e: Regeneration, rejected: bool)
    ensures var after := After(c, [Reads(e), Answers(|c.pending|, rejected)]);
            && after.text == (if rejected then c.text else Regenerate(c.text, e))
            && after.pending == c.pending
            && after.restarts == c.restarts + if after.text != c.text then 1 else 0
  {
    hide Regenerate;
    var answer := Answers(|c.pending|, rejected);
    var c1 := Advance(c, Reads(e));
    AfterStep(c, Reads(e), [answer]);
    AfterStep(c1, answer, []);
    if c1.pending != c.pending {
      assert c1.pending[..|c.pending|] + c1.pending[|c.pending| + 1..] == c.pending;
    }
  }

  /** The file, and what every sync under way would write, is a history of the text it all began with. */
  ghost predicate Follows(t: string, c: Config) {
    && Tidy(t) && AllClean(c.shown) && c.text == Run(t, c.shown)
    && forall p :: p in c.pending ==> AllClean(p.base + [p.e]) && p.next == Run(t, p.base + [p.e])
  }

  lemma FollowsStays(t: string, c: Config, s: Step)
    requires Follows(t, c) && (s.Reads? ==> Clean(s.e))
    ensures Follows(t, Advance(c, s))
  {
    hide Tidy;
    hide Clean;
    hide Regenerate;
    if s.Reads? {
      var more := c.shown + [s.e];
      assert more[..|more| - 1] == c.shown;
    }
  }

  /**
   * However syncs overlap, are refused or die, the file is a history of some of them, well formed, and says what
   * the last rules in that history said.
   */
  lemma {:induction false} OverlappingSyncsShowAHistory(t: string, c: Config, steps: seq<Step>)
    requires Follows(t, c) && forall s :: s in steps && s.Reads? ==> Clean(s.e)
    ensures var after := After(c, steps);
            Follows(t, after) && Tidy(after.text) && ReadPolicy(after.text) == PolicyOf(t, after.shown)
    decreases |steps|
  {
    hide ReadPolicy;
    hide Tidy;
    hide Clean;
    hide Advance;
    if steps == [] {
      PolicyOfRun(t, c.shown);
    } else {
      assert steps[0] in steps;
      FollowsStays(t, c, steps[0]);
      OverlappingSyncsShowAHistory(t, Advance(c, steps[0]), steps[1..]);
    }
  }

  /** The rules stay as they are whichever of the syncs under way end, and however. */
  ghost predicate PolicyIsSure(c: Config) {
    forall steps: seq<Step> :: (forall s :: s in steps ==> !s.Reads?) ==>
      ReadPolicy(After(c, steps).text) == ReadPolicy(c.text)
  }

  lemma PolicyIsLost(c: Config, steps: seq<Step>)
    requires (forall s :: s in steps ==> !s.Reads?) && ReadPolicy(After(c, steps).text) != ReadPolicy(c.text)
    ensures !PolicyIsSure(c)
  {
  }

  /** The syncs under way can change the rules exactly when one of them carries others than the file shows. */
  lemma PolicyIsSureIff(t: string, c: Config)
    requires Follows(t, c)
    ensures PolicyIsSure(c) <==> forall p :: p in c.pending ==> PolicyOf(t, p.base + [p.e]) == PolicyOf(t, c.shown)
  {
    hide ReadPolicy;
    hide Tidy;
    hide Run;
    hide PolicyOf;
    PolicyOfRun(t, c.shown);
    if p :| p in c.pending && PolicyOf(t, p.base + [p.e]) != PolicyOf(t, c.shown) {
      var j :| 0 <= j < |c.pending| && c.pending[j] == p;
      var steps := [Answers(j, false)];
      assert steps[1..] == [];
      assert After(c, steps) == Advance(c, steps[0]);
      PolicyOfRun(t, p.base + [p.e]);
      PolicyIsLost(c, steps);
    } else {
      forall steps: seq<Step> | forall s :: s in steps ==> !s.Reads?
        ensures ReadPolicy(After(c, steps).text) == ReadPolicy(c.text)
      {
        PolicyStays(t, c, steps);
        PolicyOfRun(t, After(c, steps).shown);
      }
    }
  }

  lemma PolicyStep(t: string, c: Config, s: Step)
    requires !s.Reads? && forall p :: p in c.pending ==> PolicyOf(t, p.base + [p.e]) == PolicyOf(t, c.shown)
    ensures var next := Advance(c, s);
            && PolicyOf(t, next.shown) == PolicyOf(t, c.shown)
            && forall p :: p in next.pending ==> PolicyOf(t, p.base + [p.e]) == PolicyOf(t, c.shown)
  {
    hide PolicyOf;
  }

  /** A death ends every sync under way: the file stays, and so do its rules. */
  lemma DeathMakesSure(t: string, c: Config)
    requires Follows(t, c)
    ensures Advance(c, Dies).text == c.text && PolicyIsSure(Advance(c, Dies))
  {
    FollowsStays(t, c, Dies);
    PolicyIsSureIff(t, Advance(c, Dies));
  }

  lemma {:induction false} PolicyStays(t: string, c: Config, steps: seq<Step>)
    requires Follows(t, c) && forall s :: s in steps ==> !s.Reads?
    requires forall p :: p in c.pending ==> PolicyOf(t, p.base + [p.e]) == PolicyOf(t, c.shown)
    ensures Follows(t, After(c, steps)) && PolicyOf(t, After(c, steps).shown) == PolicyOf(t, c.shown)
    decreases |steps|
  {
    if steps != [] {
      hide Follows;
      hide PolicyOf;
      hide Advance;
      assert steps[0] in steps;
      FollowsStays(t, c, steps[0]);
      PolicyStep(t, c, steps[0]);
      PolicyStays(t, Advance(c, steps[0]), steps[1..]);
    }
  }

  /** At boot both generators read the file before either writes; the rules are answered first. */
  function Boot(rules: seq<Rule>, clients: seq<Client>): seq<Step> {
    [Reads(OfRules(rules)), Reads(OfClients(clients)), Answers(0, false), Answers(0, false)]
  }

  /**
   * Both syncs started at once: in the end the file shows the rules exactly when it showed them already, or the clients
   * had nothing to write. Otherwise the clients are written into the text read before the rules were.
   */
  lemma BootShowsRulesIff(c: Config, rules: seq<Rule>, clients: seq<Client>)
    requires Tidy(c.text) && c.pending == [] && Clean(OfRules(rules)) && Clean(OfClients(clients))
    ensures ReadPolicy(After(c, Boot(rules, clients)).text) == Some(rules) <==>
              ReadPolicy(c.text) == Some(rules) || Regenerate(c.text, OfClients(clients)) == c.text
  {
    var r, o := OfRules(rules), OfClients(clients);
    BootEnds(c, rules, clients);
    TidyIsPlaced(c.text);
    WrittenPolicyReadsBack(c.text, rules);
    ClientsLeavePolicy(c.text, clients);
  }

  lemma BootEnds(c: Config, rules: seq<Rule>, clients: seq<Client>)
    requires c.pending == []
    ensures var r, o := OfRules(rules), OfClients(clients);
            After(c, Boot(rules, clients)).text ==
            if Regenerate(c.text, o) == c.text then Regenerate(c.text, r) else Regenerate(c.text, o)
    ensures var r, o := OfRules(rules), OfClients(clients);
            After(c, Boot(rules, clients)).restarts ==
            c.restarts + (if Regenerate(c.text, r) == c.text then 0 else 1) + if Regenerate(c.text, o) == c.text then 0 else 1
  {
    hide Regenerate;
    var r, o, answer := Reads(OfRules(rules)), Reads(OfClients(clients)), Answers(0, false);
    var c1 := Advance(c, r);
    var c2 := Advance(c1, o);
    var c3 := Advance(c2, answer);
    AfterStep(c3, answer, []);
    AfterStep(c2, answer, [answer]);
    AfterStep(c1, o, [answer, answer]);
    AfterStep(c, r, [o, answer, answer]);
  }

  /** A file with a list of clients and no rules yet: after such a boot it has the clients, and no rules still. */
  lemma BootLosesRules(c: Config, rules: seq<Rule>, clients: seq<Client>)
    requires c.text == CLIENTS_KEY.text && c.pending == [] && Clean(OfRules(rules)) && Clean(OfClients(clients))
    ensures ReadPolicy(After(c, Boot(rules, clients)).text) == None
    ensures After(c, Boot(rules, clients)).restarts == c.restarts + 2
  {
    ListIsTidy();
    SomeMove(rules, clients);
    BootEnds(c, rules, clients);
    UnmarkedSaysNothing(c.text);
    ClientsLeavePolicy(c.text, clients);
  }

  lemma TooShort(t: string, p: Pattern)
    requires |t| < |p.text|
    ensures Free(t, p)
  {
    FindMeaning(t, p);
  }

  /** A bare list of clients has both blocks still to come, each in a place of its own. */
  lemma ListIsTidy()
    ensures Tidy(CLIENTS_KEY.text)
    ensures MarkedSite(CLIENTS_KEY.text, ACCESS).None? && OidcSite(CLIENTS_KEY.text, OIDC) == Some(Site(|CLIENTS_KEY.text|, |CLIENTS_KEY.text|, ""))
    ensures AccessSite(CLIENTS_KEY.text, ACCESS) == Site(0, 0, "\n")
  {
    var t := CLIENTS_KEY.text;
    assert |AccessText.MANAGED| > |t| && |ACCESS_KEY.text| > |t|;
    hide Find;
    TooShort(t, ACCESS.Begin());
    TooShort(t, OIDC.Begin());
    TooShort(t, ACCESS_KEY);
    FindMeaning(t, CLIENTS_KEY);
    assert Hit(t, CLIENTS_KEY, 0);
  }

  lemma ClientBlockIsNotEmpty(clients: seq<Client>)
    ensures OidcBlock(clients) != ""
  {
    hide ClientsLines;
  }

  /** Both generators have something to write into it. */
  lemma SomeMove(rules: seq<Rule>, clients: seq<Client>)
    ensures Regenerate(CLIENTS_KEY.text, OfRules(rules)) != CLIENTS_KEY.text
    ensures Regenerate(CLIENTS_KEY.text, OfClients(clients)) != CLIENTS_KEY.text
  {
    ListIsTidy();
    ClientBlockIsNotEmpty(clients);
    hide MarkedSite;
    hide AccessSite;
    hide OidcSite;
    hide AccessBlock;
    hide OidcBlock;
    var t := CLIENTS_KEY.text;
    assert |SpliceAccess(t, ACCESS, AccessBlock(rules))| > |t|;
    assert |SpliceOidc(t, OIDC, OidcBlock(clients))| > |t|;
  }
}
