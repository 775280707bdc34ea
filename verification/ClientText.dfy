/** The client entries of the configuration file (backend/src/services/autheliaOidcClients.ts), read back as Authelia does. */
module ClientText {
  import opened Common
  import opened AccessPolicy
  import opened AccessText
  import opened TextSearch
  import opened ConfigSplice
  import opened SpliceCommute
  import opened AutheliaConfig
  import opened ConfigHistory

  // ----- One client -----

  // The words that Authelia goes by.
  const URIS := "        redirect_uris:"
  const SCOPES := "        scopes:"
  const METHOD := "        token_endpoint_auth_method: '"
  const ITEM_START := "          - '"
  const ID := "      - client_id: '"
  const NAME := "        client_name: '"
  const SECRET := "        client_secret: '"
  const ONE_FACTOR := "        authorization_policy: 'one_factor'"
  const NO_CONSENT := "        consent_mode: 'implicit'"
  const PKCE := "        require_pkce: true"
  const S256 := "        pkce_challenge_method: 'S256'"

  /** The values of the list items that the lines begin with. */
  function TakeItems(lines: seq<string>): (items: seq<string>)
    ensures |items| <= |lines|
    ensures forall i <- items :: '\'' !in i
  {
    if lines == [] then []
    else match Unquote(ITEM_START, lines[0])
      case None => []
      case Some(item) => [item] + TakeItems(lines[1..])
  }

  /** How a client shows its secret, behind the scopes it may ask for. */
  datatype End = End(scopes: seq<string>, authMethod: string, length: nat)

  function TakeEnd(lines: seq<string>): (e: Option<End>)
    ensures e.Some? ==> 0 < e.value.length <= |lines|
    ensures e.Some? ==> '\'' !in e.value.authMethod && forall s <- e.value.scopes :: '\'' !in s
  {
    if lines == [] || lines[0] != SCOPES then None
    else
      var scopes := TakeItems(lines[1..]);
      var tail := lines[1..][|scopes|..];
      if tail == [] then None
      else match Unquote(METHOD, tail[0])
        case None => None
        case Some(authMethod) => Some(End(scopes, authMethod, 2 + |scopes|))
  }

  datatype Lists = Lists(redirectUris: seq<string>, end: End, length: nat)

  /** Where the client may redirect to, and the end of its entry. */
  function TakeLists(lines: seq<string>): (l: Option<Lists>)
    ensures l.Some? ==> 0 < l.value.length <= |lines|
    ensures l.Some? ==> '\'' !in l.value.end.authMethod && forall s <- l.value.redirectUris + l.value.end.scopes :: '\'' !in s
  {
    if lines == [] || lines[0] != URIS then None
    else
      var uris := TakeItems(lines[1..]);
      match TakeEnd(lines[1..][|uris|..])
      case None => None
      case Some(end) => Some(Lists(uris, end, 1 + |uris| + end.length))
  }

  predicate AsksForPkce(lines: seq<string>) {
    |lines| > 1 && lines[0] == PKCE && lines[1] == S256
  }

  datatype TakenClient = TakenClient(client: Client, length: nat)

  /** The client that the lines begin with: its login takes one factor, and nobody is asked to consent. */
  function TakeClient(lines: seq<string>): (c: Option<TakenClient>)
    ensures c.Some? ==> 0 < c.value.length <= |lines|
    ensures c.Some? ==> PlainClient(c.value.client)
  {
    if |lines| < 5 || lines[3] != ONE_FACTOR || lines[4] != NO_CONSENT then None
    else
      var id, name := Unquote(ID, lines[0]), Unquote(NAME, lines[1]);
      var digest := Unquote(SECRET, lines[2]);
      var pkce := AsksForPkce(lines[5..]);
      var head := if pkce then 7 else 5;
      var lists := TakeLists(lines[head..]);
      if id.None? || name.None? || digest.None? || lists.None? then None
      else
        var l := lists.value;
        Some(TakenClient(Client(id.value, name.value, digest.value, l.redirectUris, l.end.scopes, pkce, l.end.authMethod), head + l.length))
  }

  function ReadClients(lines: seq<string>): (clients: Option<seq<Client>>)
    ensures clients.Some? ==> forall c <- clients.value :: PlainClient(c)
    decreases |lines|
  {
    if lines == [] then Some([])
    else match TakeClient(lines)
      case None => None
      case Some(t) =>
        match ReadClients(lines[t.length..])
        case None => None
        case Some(rest) => Some([t.client] + rest)
  }

  /** No quote that would end a quoted value early. */
  predicate PlainClient(c: Client) {
    && '\'' !in c.id && '\'' !in c.name && '\'' !in c.digest && '\'' !in c.authMethod
    && (forall u <- c.redirectUris :: '\'' !in u)
    && (forall s <- c.scopes :: '\'' !in s)
  }

  lemma {:induction false} TakeItemsOfItems(items: seq<string>, rest: seq<string>)
    requires forall i <- items :: '\'' !in i
    requires rest == [] || Unquote(ITEM_START, rest[0]).None?
    ensures TakeItems(ListItems(items) + rest) == items
  {
    if items == [] {
      assert ListItems(items) + rest == rest;
    } else {
      var lines := ListItems(items) + rest;
      assert ListItem(items[0]) == ITEM_START + items[0] + "'";
      hide ITEM_START;
      assert lines[0] == ListItem(items[0]) && lines[1..] == ListItems(items[1..]) + rest;
      UnquoteQuoted(ITEM_START, items[0]);
      TakeItemsOfItems(items[1..], rest);
    }
  }

  lemma HeadingsAreNoItems(authMethod: string)
    ensures Unquote(ITEM_START, SCOPES).None?
    ensures Unquote(ITEM_START, METHOD + authMethod + "'").None?
  {
    assert (METHOD + authMethod + "'")[8] == 't';
  }

  lemma ListHeadings()
    ensures Heading("redirect_uris") == URIS && Heading("scopes") == SCOPES
  {
  }

  lemma MethodPrefix()
    ensures "        " + "token_endpoint_auth_method" + ": '" == METHOD
  {
  }

  lemma ListLines(c: Client)
    ensures ClientLists(c) ==
            [URIS] + (ListItems(c.redirectUris) + ([SCOPES] + (ListItems(c.scopes)
            + [METHOD + c.authMethod + "'"])))
    ensures |ClientLists(c)| == 3 + |c.redirectUris| + |c.scopes|
  {
    assert |ListItems(c.redirectUris)| == |c.redirectUris| && |ListItems(c.scopes)| == |c.scopes|;
    ListHeadings();
    MethodPrefix();
    assert Field("token_endpoint_auth_method", c.authMethod) == METHOD + c.authMethod + "'";
    hide Heading;
    hide Field;
    hide ListItems;
  }

  lemma ItemsEnd(items: seq<string>, head: string, more: seq<string>)
    requires forall i <- items :: '\'' !in i
    requires Unquote(ITEM_START, head).None?
    ensures TakeItems(ListItems(items) + ([head] + more)) == items && |ListItems(items)| == |items|
  {
    TakeItemsOfItems(items, [head] + more);
  }

  lemma Behind(head: string, items: seq<string>, more: seq<string>)
    ensures var lines := [head] + (items + more);
            lines[0] == head && lines[1..] == items + more && lines[1..][|items|..] == more
  {
  }

  lemma TakeEndOf(c: Client, last: string, rest: seq<string>)
    requires PlainClient(c) && last == METHOD + c.authMethod + "'"
    ensures TakeEnd([SCOPES] + (ListItems(c.scopes) + ([last] + rest))) == Some(End(c.scopes, c.authMethod, 2 + |c.scopes|))
  {
    hide TakeItems;
    HeadingsAreNoItems(c.authMethod);
    ItemsEnd(c.scopes, last, rest);
    UnquoteQuoted(METHOD, c.authMethod);
    hide Unquote;
    hide METHOD;
    hide SCOPES;
    Behind(SCOPES, ListItems(c.scopes), [last] + rest);
    hide ListItems;
  }

  lemma TakeListsOf(c: Client, more: seq<string>)
    requires PlainClient(c) && TakeEnd([SCOPES] + more).Some?
    ensures var end := TakeEnd([SCOPES] + more).value;
            TakeLists([URIS] + (ListItems(c.redirectUris) + ([SCOPES] + more))) ==
            Some(Lists(c.redirectUris, end, 1 + |c.redirectUris| + end.length))
  {
    hide TakeItems;
    hide TakeEnd;
    HeadingsAreNoItems(c.authMethod);
    ItemsEnd(c.redirectUris, SCOPES, more);
    hide Unquote;
    hide URIS;
    hide SCOPES;
    Behind(URIS, ListItems(c.redirectUris), [SCOPES] + more);
    hide ListItems;
  }

  /** The lists of an entry with more lines behind them. */
  lemma ListsAndRest(h1: string, us: seq<string>, h2: string, ss: seq<string>, last: string, rest: seq<string>)
    ensures [h1] + (us + ([h2] + (ss + [last]))) + rest == [h1] + (us + ([h2] + (ss + ([last] + rest))))
  {
  }

  lemma TakeListsOfClient(c: Client, rest: seq<string>)
    requires PlainClient(c)
    ensures TakeLists(ClientLists(c) + rest) == Some(Lists(c.redirectUris, End(c.scopes, c.authMethod, 2 + |c.scopes|), |ClientLists(c)|))
  {
    hide TakeLists;
    hide TakeEnd;
    hide PlainClient;
    ListLines(c);
    hide ClientLists;
    hide ListItems;
    hide URIS;
    hide SCOPES;
    hide METHOD;
    var last := METHOD + c.authMethod + "'";
    ListsAndRest(URIS, ListItems(c.redirectUris), SCOPES, ListItems(c.scopes), last, rest);
    TakeEndOf(c, last, rest);
    TakeListsOf(c, ListItems(c.scopes) + ([last] + rest));
  }

  lemma NamePrefixes()
    ensures "        " + "client_name" + ": '" == NAME
    ensures "        " + "client_secret" + ": '" == SECRET
  {
  }

  lemma PolicyLine()
    ensures Field("authorization_policy", "one_factor") == ONE_FACTOR
  {
  }

  lemma ConsentLine()
    ensures Field("consent_mode", "implicit") == NO_CONSENT
  {
  }

  lemma ChallengeLine()
    ensures Field("pkce_challenge_method", "S256") == S256
  {
  }

  lemma HeadLines(c: Client)
    ensures ClientHead(c) ==
            [ID + c.id + "'", NAME + c.name + "'",
             SECRET + c.digest + "'", ONE_FACTOR,
             NO_CONSENT]
  {
    NamePrefixes();
    assert Field("client_name", c.name) == NAME + c.name + "'";
    assert Field("client_secret", c.digest) == SECRET + c.digest + "'";
    hide Field;
    PolicyLine();
    ConsentLine();
  }

  lemma PkceLinesAre(c: Client)
    ensures PkceLines(c) ==
            if c.requirePkce then [PKCE, S256] else []
  {
    ChallengeLine();
    hide Field;
  }

  lemma PkceOfLines(c: Client, rest: seq<string>)
    ensures AsksForPkce(PkceLines(c) + (ClientLists(c) + rest)) == c.requirePkce
    ensures |PkceLines(c)| == if c.requirePkce then 2 else 0
  {
    PkceLinesAre(c);
    ListLines(c);
    hide Heading;
    hide Field;
    hide PkceLines;
    hide ClientLists;
    assert (ClientLists(c) + rest)[0] == URIS;
  }

  lemma HeadAndRest(a: seq<string>, b: seq<string>, c: seq<string>, rest: seq<string>)
    ensures (a + b + c + rest)[|a|..] == b + (c + rest) && (a + b + c + rest)[|a| + |b|..] == c + rest
    ensures forall i :: 0 <= i < |a| ==> (a + b + c + rest)[i] == a[i]
  {
  }

  lemma TakeOneClient(c: Client, rest: seq<string>)
    requires PlainClient(c)
    ensures TakeClient(ClientLines(c) + rest) == Some(TakenClient(c, |ClientLines(c)|))
  {
    hide ID;
    hide NAME;
    hide SECRET;
    hide ONE_FACTOR;
    hide NO_CONSENT;
    hide Unquote;
    hide AsksForPkce;
    hide TakeLists;
    HeadLines(c);
    PkceOfLines(c, rest);
    TakeListsOfClient(c, rest);
    hide ClientLists;
    hide PkceLines;
    hide PlainClient;
    HeadAndRest(ClientHead(c), PkceLines(c), ClientLists(c), rest);
    hide ClientHead;
    UnquoteQuoted(ID, c.id);
    UnquoteQuoted(NAME, c.name);
    UnquoteQuoted(SECRET, c.digest);
  }

  lemma ReadOneMore(lines: seq<string>, c: Client, rest: seq<string>)
    requires TakeClient(lines + rest) == Some(TakenClient(c, |lines|)) && ReadClients(rest).Some?
    ensures ReadClients(lines + rest) == Some([c] + ReadClients(rest).value)
  {
    hide TakeClient;
    assert (lines + rest)[|lines|..] == rest;
  }

  /** A client list is read back unchanged from its lines exactly when no value in it holds a quote. */
  lemma {:induction false} ReadClientsInvertsRendering(clients: seq<Client>)
    ensures ReadClients(ClientsLines(clients)) == Some(clients) <==> forall c <- clients :: PlainClient(c)
  {
    hide ClientLines;
    hide TakeClient;
    hide PlainClient;
    if clients != [] && forall c <- clients :: PlainClient(c) {
      assert clients[0] in clients && forall c <- clients[1..] :: c in clients;
      ReadClientsInvertsRendering(clients[1..]);
      TakeOneClient(clients[0], ClientsLines(clients[1..]));
      ReadOneMore(ClientLines(clients[0]), clients[0], ClientsLines(clients[1..]));
      hide ReadClients;
      assert [clients[0]] + clients[1..] == clients;
    }
  }

  // ----- The clients in the file -----

  /** The clients in the marked block, if the file holds one that can be read. */
  function ClientsIn(t: string): Option<seq<Client>> {
    match MarkedSite(t, OIDC)
    case None => None
    case Some(s) =>
      var lines := LinesOf(t[s.from..s.to]);
      if |lines| < 2 then None else ReadClients(lines[1..|lines| - 1])
  }

  lemma ClientsLinesAreWhole(clients: seq<Client>)
    requires forall c :: c in clients ==> TameClient(c)
    ensures forall l :: l in ClientsLines(clients) ==> '\n' !in l
  {
    ClientsLinesAreNeat(clients);
    forall l | l in ClientsLines(clients) ensures '\n' !in l {
      TameIsOneLine(l);
    }
  }

  lemma ClientBlockReadsBack(lines: seq<string>)
    requires forall l :: l in lines ==> '\n' !in l
    ensures var all := LinesOf(BlockText(OIDC, lines));
            |all| == |lines| + 2 && all[1..|all| - 1] == lines
  {
    hide LinesOf;
    hide BlockText;
    BlockLines(OIDC, lines);
    OidcMarksAreGood();
    BreaksByChar(OIDC.begin);
    BreaksByChar(OIDC.end);
    LinesOfUnlines([OIDC.begin] + lines + [OIDC.end]);
  }

  /** The clients just spliced in are read back, if the file has a list to put them in. */
  lemma WrittenClientsReadBack(t: string, clients: seq<Client>)
    requires WellPlaced(t, OIDC) && OidcSite(t, OIDC).Some?
    requires forall c :: c in clients ==> TameClient(c) && PlainClient(c)
    ensures ClientsIn(SpliceOidc(t, OIDC, OidcBlock(clients))) == Some(clients)
  {
    hide IsBlock;
    hide WellPlaced;
    hide Good;
    hide BlockText;
    hide LinesOf;
    hide ReadClients;
    hide MarkedSite;
    hide ClientsLines;
    OidcMarksAreGood();
    OidcBlockIsInert(clients);
    ClientsLinesAreWhole(clients);
    ClientBlockReadsBack(ClientsLines(clients));
    ReadClientsInvertsRendering(clients);
    ClientBlockIsMarked(t, OidcBlock(clients));
  }

  lemma ClientBlockIsMarked(t: string, block: string)
    requires Good(OIDC) && WellPlaced(t, OIDC) && IsBlock(block, OIDC) && OidcSite(t, OIDC).Some?
    ensures var after := SpliceOidc(t, OIDC, block);
            var s := MarkedSite(after, OIDC);
            s.Some? && after[s.value.from..s.value.to] == block
  {
    var s := OidcSite(t, OIDC).value;
    OidcSiteIsClean(t, OIDC);
    hide IsBlock;
    hide WellPlaced;
    hide Good;
    hide MarkedSite;
    hide OidcSite;
    MarkedSiteOfBlock(t[..s.from], block, s.gap + t[s.to..], OIDC);
    Assoc(t[..s.from] + block, s.gap, t[s.to..]);
    Cut(t[..s.from], block, s.gap + t[s.to..]);
  }

  /** Whole lines beside the marked clients do not matter to how these read. */
  lemma SwapLeavesClients(a: string, x: string, x': string, b: string)
    requires Good(OIDC) && Aligned(a) && Aligned(x) && Aligned(x') && Free(x', OIDC.Begin())
    requires WellPlaced(a + x + b, OIDC)
    requires var s := MarkedSite(a + x + b, OIDC);
             s.Some? ==> s.value.to <= |a| || |a| + |x| <= s.value.from
    ensures ClientsIn(a + x' + b) == ClientsIn(a + x + b)
  {
    hide ClientsIn;
    hide MarkedSite;
    hide Find;
    hide Good;
    hide Aligned;
    hide WellPlaced;
    if Free(a + x + b, OIDC.Begin()) {
      UnmarkedStays(a, x, x', b, OIDC);
      UnmarkedHasNoClients(a + x + b);
      UnmarkedHasNoClients(a + x' + b);
    } else {
      MarkedStays(a, x, x', b, OIDC);
      var s := MarkedSite(a + x + b, OIDC).value;
      if s.to <= |a| {
        SlicesInHead(a, x, x', b, s.from, s.to);
      } else {
        SlicesInTail(a, x, x', b, s.from, s.to);
      }
      SameBlockSameClients(a + x + b, a + x' + b);
    }
  }

  lemma UnmarkedHasNoClients(t: string)
    requires MarkedSite(t, OIDC).None?
    ensures ClientsIn(t) == None
  {
  }

  lemma SameBlockSameClients(t: string, t': string)
    requires var s, s' := MarkedSite(t, OIDC), MarkedSite(t', OIDC);
             s.Some? && s'.Some? && t[s.value.from..s.value.to] == t'[s'.value.from..s'.value.to]
    ensures ClientsIn(t') == ClientsIn(t)
  {
    hide MarkedSite;
  }

  /** Putting in rules leaves the clients as they are read, and the file a place for clients if it had one. */
  lemma RulesLeaveClients(t: string, rules: seq<Rule>)
    requires Tidy(t) && forall r :: r in rules ==> TameRule(r)
    ensures ClientsIn(Regenerate(t, OfRules(rules))) == ClientsIn(t)
    ensures OidcSite(Regenerate(t, OfRules(rules)), OIDC).Some? <==> OidcSite(t, OIDC).Some?
  {
    hide IsBlock;
    hide AccessBlock;
    hide ClientsIn;
    hide Good;
    hide Inert;
    hide Tidy;
    hide SpliceAccess;
    hide OidcSite;
    AccessMarksAreGood();
    OidcMarksAreGood();
    AccessBlockIsInert(rules);
    RuleBlockLeavesClients(t, AccessBlock(rules));
  }

  lemma RuleBlockLeavesClients(t: string, block: string)
    requires Good(ACCESS) && Good(OIDC) && Tidy(t) && Inert(block, OIDC, CLIENTS_KEY)
    ensures ClientsIn(SpliceAccess(t, ACCESS, block)) == ClientsIn(t)
    ensures OidcSite(SpliceAccess(t, ACCESS, block), OIDC).Some? <==> OidcSite(t, OIDC).Some?
  {
    OidcSiteAfterAccess(t, ACCESS, OIDC, block);
    var s := AccessSite(t, ACCESS);
    FillHole(t, s, block);
    AccessHole(t, ACCESS);
    GapOf(t, ACCESS);
    InertWithGap(block, s.gap, OIDC, CLIENTS_KEY);
    MarkedIsApart(t);
    hide ClientsIn;
    hide AccessSite;
    hide Find;
    hide Fill;
    hide Good;
    hide WellPlaced;
    hide MarkedSite;
    hide Apart;
    hide OidcSite;
    SwapLeavesClients(t[..s.from], t[s.from..s.to], block + s.gap, t[s.to..]);
  }

  lemma MarkedIsApart(t: string)
    requires Apart(t, ACCESS, OIDC)
    ensures var s, so := AccessSite(t, ACCESS), MarkedSite(t, OIDC);
            so.Some? ==> so.value.to <= s.from || s.to <= so.value.from
  {
    hide AccessSite;
    hide MarkedSite;
  }

  /** What the file says about clients after any history. */
  lemma ClientsOfRun(t: string, es: seq<Regeneration>)
    requires Tidy(t) && forall e :: e in es ==> Fit(e) && (e.OfClients? ==> forall c <- e.clients :: PlainClient(c))
    ensures ClientsIn(Run(t, es)) == if LastClients(es).Some? && OidcSite(t, OIDC).Some? then LastClients(es) else ClientsIn(t)
  {
    OnlyTheLastShow(t, es);
    if LastClients(es).Some? {
      LastClientsAmong(es);
    }
    hide Tidy;
    hide Run;
    hide ClientsIn;
    hide OidcSite;
    hide PlainClient;
    hide TameRule;
    hide TameClient;
    hide SpliceAccess;
    hide SpliceOidc;
    var t' := WithRules(t, LastRules(es));
    if LastRules(es).Some? {
      RulesLeaveClients(t, LastRules(es).value);
    }
    if LastClients(es).Some? {
      TidyTwice(t');
      if OidcSite(t', OIDC).Some? {
        WrittenClientsReadBack(t', LastClients(es).value);
      } else {
        NowhereToPut(t', LastClients(es).value);
      }
    }
  }

  lemma TidyTwice(t: string)
    requires Tidy(t)
    ensures WellPlaced(t, OIDC)
  {
  }

  lemma NowhereToPut(t: string, clients: seq<Client>)
    requires OidcSite(t, OIDC).None?
    ensures Regenerate(t, OfClients(clients)) == t
  {
  }

  lemma {:induction false} LastClientsAmong(es: seq<Regeneration>)
    requires LastClients(es).Some?
    ensures OfClients(LastClients(es).value) in es
  {
    if !es[|es| - 1].OfClients? {
      LastClientsAmong(es[..|es| - 1]);
    }
  }

  /** In a file with a client list, clients synced behind earlier ones restart Authelia exactly when they are not the same. */
  lemma ClientsRestartIff(t: string, es: seq<Regeneration>, clients: seq<Client>)
    requires Tidy(t) && OidcSite(t, OIDC).Some? && LastClients(es).Some?
    requires forall e :: e in es + [OfClients(clients)] ==> Fit(e) && (e.OfClients? ==> forall c <- e.clients :: PlainClient(c))
    ensures Run(t, es + [OfClients(clients)]) != Run(t, es) <==> LastClients(es) != Some(clients)
  {
    hide Run;
    hide ClientsIn;
    hide Fit;
    hide Tidy;
    hide OidcSite;
    var e := OfClients(clients);
    var more := es + [e];
    assert more[..|more| - 1] == es && e in more && forall x :: x in es ==> x in more;
    ClientsOfRun(t, es);
    ClientsOfRun(t, more);
    if LastClients(es) == Some(clients) {
      OnlyTheLastShow(t, es);
      OnlyTheLastShow(t, more);
    }
  }
}
