/**
 * The two generated blocks as text, the configuration file they are spliced into, and what the splice
 * laws mean for it: regenerating in any order gives one file, and regenerating again restarts nothing. Most of
 * the lemmas show that rendered lines hold no line break, no marker and no key of the other generator.
 */
module AutheliaConfig {
  import opened Common
  import opened TextSearch
  import opened ConfigSplice
  import opened SpliceCommute
  import AccessPolicy
  import AccessText

  /** One managed OIDC client; its secret is already a digest. */
  datatype Client = Client(
    id: string, name: string, digest: string, redirectUris: seq<string>, scopes: seq<string>,
    requirePkce: bool, authMethod: string)

  function Field(key: string, value: string): string {
    "        " + key + ": '" + value + "'"
  }

  function Heading(key: string): string {
    "        " + key + ":"
  }

  function ListItem(value: string): string {
    "          - '" + value + "'"
  }

  function ListItems(items: seq<string>): seq<string> {
    seq(|items|, i requires 0 <= i < |items| => ListItem(items[i]))
  }

  function ClientHead(c: Client): seq<string> {
    ["      - client_id: '" + c.id + "'",
     Field("client_name", c.name),
     Field("client_secret", c.digest),
     Field("authorization_policy", "one_factor"),
     Field("consent_mode", "implicit")]
  }

  function PkceLines(c: Client): seq<string> {
    if c.requirePkce then ["        require_pkce: true", Field("pkce_challenge_method", "S256")] else []
  }

  function ClientLists(c: Client): seq<string> {
    [Heading("redirect_uris")] + ListItems(c.redirectUris) +
    [Heading("scopes")] + ListItems(c.scopes) +
    [Field("token_endpoint_auth_method", c.authMethod)]
  }

  function ClientLines(c: Client): seq<string> {
    ClientHead(c) + PkceLines(c) + ClientLists(c)
  }

  function ClientsLines(clients: seq<Client>): seq<string> {
    if clients == [] then [] else ClientLines(clients[0]) + ClientsLines(clients[1..])
  }

  function Unlines(lines: seq<string>): string {
    if lines == [] then "" else lines[0] + "\n" + Unlines(lines[1..])
  }

  /** A begin marker, some lines and an end marker, each ended by a line break. */
  function BlockText(m: Marks, lines: seq<string>): string {
    m.begin + ("\n" + Unlines(lines)) + m.end + "\n"
  }

  const ACCESS_HEAD := ["access_control:", "  default_policy: deny", "  rules:"]

  function AccessLines(rules: seq<AccessPolicy.Rule>): seq<string> {
    ACCESS_HEAD + AccessText.Texts(AccessText.RulesLines(rules))
  }

  function AccessBlock(rules: seq<AccessPolicy.Rule>): string {
    BlockText(ACCESS, AccessLines(rules))
  }

  function OidcBlock(clients: seq<Client>): string {
    BlockText(OIDC, ClientsLines(clients))
  }

  /** The client entries, pushed one client after another. */
  method RenderOidcClients(clients: seq<Client>) returns (lines: seq<string>)
    ensures lines == ClientsLines(clients)
  {
    lines := [];
    var i := 0;
    while i < |clients|
      invariant 0 <= i <= |clients|
      invariant lines == ClientsLines(clients[..i])
    {
      assert clients[..i + 1] == clients[..i] + [clients[i]];
      ClientsLinesSnoc(clients[..i], clients[i]);
      lines := lines + ClientLines(clients[i]);
      i := i + 1;
    }
    assert clients[..i] == clients;
  }

  lemma {:induction false} ClientsLinesSnoc(clients: seq<Client>, c: Client)
    ensures ClientsLines(clients + [c]) == ClientsLines(clients) + ClientLines(c)
  {
    hide ClientLines;
    if clients == [] {
      assert (clients + [c])[1..] == [];
    } else {
      assert (clients + [c])[0] == clients[0] && (clients + [c])[1..] == clients[1..] + [c];
      ClientsLinesSnoc(clients[1..], c);
      Assoc(ClientLines(clients[0]), ClientsLines(clients[1..]), ClientLines(c));
    }
  }

  // ----- The rendered texts are well-formed blocks that do not disturb one another -----

  const BEGIN_CORE := Pattern(AccessText.MANAGED, false)
  const END_CORE := Pattern(AccessText.MARK_END, false)

  /** One line that holds neither of the texts the markers are made of. */
  predicate Tame(s: string) {
    NoBreaks(s) && Free(s, BEGIN_CORE) && Free(s, END_CORE)
  }

  predicate TameLines(lines: seq<string>) {
    forall l :: l in lines ==> Tame(l)
  }

  /** One line without a comment sign. */
  predicate Word(s: string) {
    NoBreaks(s) && '#' !in s
  }

  /** Both marker lines of a block hold the texts that tame lines do not. */
  ghost predicate Managed(m: Marks) {
    (exists a, b :: m.begin == a + AccessText.MANAGED + b) && exists a :: m.end == a + AccessText.MARK_END
  }

  /** A text without a character holds no pattern that needs it. */
  lemma FreeOfChar(t: string, p: Pattern, c: char)
    requires c !in t && c in p.text
    ensures Free(t, p)
  {
    var i :| 0 <= i < |p.text| && p.text[i] == c;
    forall y: nat ensures !Hit(t, p, y) {
      if y + |p.text| <= |t| {
        assert t[y..y + |p.text|][i] == t[y + i];
      }
    }
    NoHitIsFree(t, p);
  }

  lemma SliceOfSlice(t: string, y: nat, n: nat, i: nat, k: nat)
    requires y + n <= |t| && i + k <= n
    ensures t[y..y + n][i..i + k] == t[y + i..y + i + k]
  {
    var u, w := t[y..y + n][i..i + k], t[y + i..y + i + k];
    assert forall j :: 0 <= j < k ==> u[j] == w[j];
  }

  /** A text without a part of a pattern is without the pattern. */
  lemma FreeOfPart(t: string, p: Pattern, a: string, core: string, b: string)
    requires p.text == a + core + b && Free(t, Pattern(core, false))
    ensures Free(t, p)
  {
    FindMeaning(t, Pattern(core, false));
    forall y: nat ensures !Hit(t, p, y) {
      assert !Hit(t, Pattern(core, false), y + |a|);
      if y + |p.text| <= |t| {
        Cut(a, core, b);
        SliceOfSlice(t, y, |p.text|, |a|, |core|);
      }
    }
    NoHitIsFree(t, p);
  }

  /** Quoting a text does not make a marker of it. */
  lemma QuotedIsFree(prefix: string, s: string, p: Pattern)
    requires p.text != "" && p.text[0] == '#' && '\'' !in p.text && !p.anchored
    requires '#' !in prefix && Free(s, p)
    ensures Free(prefix + s + "'", p)
  {
    var t, n := prefix + s + "'", |p.text|;
    FindMeaning(s, p);
    forall y: nat ensures !Hit(t, p, y) {
      if y + n <= |t| {
        assert t[y..y + n][0] == t[y] && t[y..y + n][n - 1] == t[y + n - 1];
        if |prefix| <= y && y + n < |t| {
          assert t[y..y + n] == s[y - |prefix|..y - |prefix| + n];
          assert !Hit(s, p, y - |prefix|);
        }
      }
    }
    NoHitIsFree(t, p);
  }

  lemma FreeWithBreak(l: string, p: Pattern)
    requires Free(l, p) && '\n' !in p.text && p.text != "" && !p.anchored
    ensures Free(l + "\n", p)
  {
    var t, n := l + "\n", |p.text|;
    FindMeaning(l, p);
    forall y: nat ensures !Hit(t, p, y) {
      if y + n == |t| {
        assert t[y..y + n][n - 1] == '\n';
      } else if y + n < |t| {
        assert t[y..y + n] == l[y..y + n];
        assert !Hit(l, p, y);
      }
    }
    NoHitIsFree(t, p);
  }

  lemma CoreFacts(p: Pattern)
    requires p == BEGIN_CORE || p == END_CORE
    ensures p.text != "" && p.text[0] == '#' && '\'' !in p.text && '\n' !in p.text && OneLine(p) && |p.text| > 1 && !p.anchored
  {
    SharedPiecesHaveNoBreaks();
    hide NoBreaks;
    if p == BEGIN_CORE {
      BeginCore();
    } else {
      EndCore();
    }
    BreaksByChar(p.text);
  }

  lemma BeginCore()
    ensures AccessText.MANAGED[0] == '#' && '\'' !in AccessText.MANAGED && |AccessText.MANAGED| > 1
  {
  }

  lemma EndCore()
    ensures AccessText.MARK_END[0] == '#' && '\'' !in AccessText.MARK_END && |AccessText.MARK_END| > 1
  {
  }

  lemma WordIsTame(s: string)
    requires Word(s)
    ensures Tame(s)
  {
    CoreFacts(BEGIN_CORE);
    CoreFacts(END_CORE);
    FreeOfChar(s, BEGIN_CORE, '#');
    FreeOfChar(s, END_CORE, '#');
  }

  lemma QuotedIsTame(prefix: string, s: string)
    requires Word(prefix) && Tame(s)
    ensures Tame(prefix + s + "'")
  {
    hide Find;
    CoreFacts(BEGIN_CORE);
    CoreFacts(END_CORE);
    QuotedIsFree(prefix, s, BEGIN_CORE);
    QuotedIsFree(prefix, s, END_CORE);
  }

  lemma {:induction false} UnlinesAreFree(lines: seq<string>, p: Pattern)
    requires TameLines(lines) && (p == BEGIN_CORE || p == END_CORE)
    ensures Aligned(Unlines(lines)) && Free(Unlines(lines), p)
  {
    hide Find;
    CoreFacts(p);
    if lines == [] {
      LongPatternIsFree("", p);
    } else {
      assert lines[0] in lines && TameLines(lines[1..]);
      UnlinesAreFree(lines[1..], p);
      AlignedConcat(lines[0] + "\n", Unlines(lines[1..]));
      FreeWithBreak(lines[0], p);
      FreeConcat(lines[0] + "\n", Unlines(lines[1..]), p);
    }
  }

  lemma BlockTextIsBlock(m: Marks, lines: seq<string>)
    requires Good(m) && Managed(m) && TameLines(lines)
    ensures IsBlock(BlockText(m, lines), m)
  {
    hide Find;
    hide Unlines;
    var body := "\n" + Unlines(lines);
    UnlinesAreFree(lines, END_CORE);
    AlignedConcat("\n", Unlines(lines));
    CoreFacts(END_CORE);
    LongPatternIsFree("\n", END_CORE);
    FreeConcat("\n", Unlines(lines), END_CORE);
    var a :| m.end == a + AccessText.MARK_END;
    assert a + AccessText.MARK_END + "" == a + AccessText.MARK_END;
    FreeOfPart(body, m.End(), a, AccessText.MARK_END, "");
    assert IsBlockOf(BlockText(m, lines), body, m);
  }

  /** Tame lines hold no begin marker of either kind. */
  lemma LinesHoldNoBegin(lines: seq<string>, other: Marks)
    requires TameLines(lines) && Managed(other)
    ensures Aligned(Unlines(lines)) && Free(Unlines(lines), other.Begin())
  {
    hide Find;
    hide Unlines;
    UnlinesAreFree(lines, BEGIN_CORE);
    var a, b :| other.begin == a + AccessText.MANAGED + b;
    FreeOfPart(Unlines(lines), other.Begin(), a, AccessText.MANAGED, b);
  }

  /** Lines that are no key line put together hold no key line. */
  lemma {:induction false} KeyFreeLines(lines: seq<string>, key: Pattern)
    requires OneLine(key) && TameLines(lines)
    requires forall l :: l in lines ==> Free(l + "\n", key)
    ensures Free(Unlines(lines), key)
  {
    if lines == [] {
      FindMeaning("", key);
    } else {
      assert lines[0] in lines && TameLines(lines[1..]);
      KeyFreeLines(lines[1..], key);
      FreeConcat(lines[0] + "\n", Unlines(lines[1..]), key);
    }
  }

  /** A line that differs from a key line in one place is no key line. */
  lemma LineIsNoKey(line: string, key: Pattern, i: nat)
    requires key.anchored && |key.text| > 1 && i < |key.text| && forall c :: c in line ==> !IsTerminator(c)
    requires i < |line| ==> line[i] != key.text[i]
    requires i >= |line| ==> i < |key.text| - 1
    ensures Free(line + "\n", key)
  {
    var t := line + "\n";
    forall y: nat ensures !Hit(t, key, y) {
      if y + |key.text| <= |t| {
        if y > 0 {
          assert t[y - 1] == line[y - 1] && line[y - 1] in line;
        } else {
          assert t[y..y + |key.text|][i] == t[i];
        }
      }
    }
    NoHitIsFree(t, key);
  }

  predicate TameRule(rule: AccessPolicy.Rule) {
    && Tame(rule.domain)
    && match rule
       case BypassRule(_, resources) => TameLines(resources)
       case OneFactorRule(_, subjects) => TameLines(subjects)
  }

  predicate TameClient(c: Client) {
    Tame(c.id) && Tame(c.name) && Tame(c.digest) && Tame(c.authMethod) && TameLines(c.redirectUris) && TameLines(c.scopes)
  }

  predicate TameLine(line: AccessText.Line) {
    (line.Domain? ==> Tame(line.name)) && (line.Item? ==> Tame(line.text))
  }

  lemma PrefixesAreWords()
    ensures Word(AccessText.DOMAIN) && Word(AccessText.ITEM)
  {
  }

  lemma FixedLineIsWord(line: AccessText.Line)
    requires !line.Domain? && !line.Item?
    ensures Word(AccessText.Text(line))
  {
  }

  /** Its fifth character tells a rule's line from `clients:`. */
  lemma RuleLineIsNoKey(line: AccessText.Line)
    ensures |AccessText.Text(line)| > 4 && AccessText.Text(line)[4] != CLIENTS_KEY.text[4]
  {
  }

  /** The lines between `rules:` and the end marker are tame, and none is a `clients:` line. */
  lemma AccessTextIsTame(line: AccessText.Line)
    requires TameLine(line)
    ensures Tame(AccessText.Text(line)) && Free(AccessText.Text(line) + "\n", CLIENTS_KEY)
  {
    hide Word;
    hide Tame;
    hide Free;
    if line.Domain? {
      PrefixesAreWords();
      QuotedIsTame(AccessText.DOMAIN, line.name);
    } else if line.Item? {
      PrefixesAreWords();
      QuotedIsTame(AccessText.ITEM, line.text);
    } else {
      FixedLineIsWord(line);
      WordIsTame(AccessText.Text(line));
    }
    RuleLineIsNoKey(line);
    TameLineIsNoKey(AccessText.Text(line), 4);
  }

  lemma TameLineIsNoKey(line: string, i: nat)
    requires Tame(line) && i < |line| && i < |CLIENTS_KEY.text| && line[i] != CLIENTS_KEY.text[i]
    ensures Free(line + "\n", CLIENTS_KEY)
  {
    hide Free;
    BreaksByChar(line);
    LineIsNoKey(line, CLIENTS_KEY, i);
  }

  lemma RuleLinesOfTameRule(rule: AccessPolicy.Rule)
    requires TameRule(rule)
    ensures forall l :: l in AccessText.RuleLines(rule) ==> TameLine(l)
  {
    hide Tame;
    var items := if rule.BypassRule? then rule.resources else rule.subjects;
    forall l | l in AccessText.Items(items) ensures TameLine(l) {
      var i :| 0 <= i < |items| && AccessText.Items(items)[i] == l;
      assert items[i] in items;
    }
  }

  lemma {:induction false} RuleLinesAreTame(rules: seq<AccessPolicy.Rule>)
    requires forall r :: r in rules ==> TameRule(r)
    ensures forall l :: l in AccessText.RulesLines(rules) ==> TameLine(l)
  {
    hide TameRule;
    hide TameLine;
    hide AccessText.RuleLines;
    if rules != [] {
      assert rules[0] in rules;
      RuleLinesOfTameRule(rules[0]);
      RuleLinesAreTame(rules[1..]);
    }
  }

  lemma AccessLinesAreTame(rules: seq<AccessPolicy.Rule>)
    requires forall r :: r in rules ==> TameRule(r)
    ensures TameLines(AccessLines(rules))
    ensures forall l :: l in AccessLines(rules) ==> Free(l + "\n", CLIENTS_KEY)
  {
    RuleLinesAreTame(rules);
    var lines := AccessText.RulesLines(rules);
    forall l | l in AccessLines(rules) ensures Tame(l) && Free(l + "\n", CLIENTS_KEY) {
      if l in ACCESS_HEAD {
        HeadLineIsTame(l);
      } else {
        assert l in AccessText.Texts(lines);
        var i :| 0 <= i < |lines| && AccessText.Texts(lines)[i] == l;
        assert lines[i] in lines;
        AccessTextIsTame(lines[i]);
      }
    }
  }

  lemma HeadLineIsTame(l: string)
    requires l in ACCESS_HEAD
    ensures Tame(l) && Free(l + "\n", CLIENTS_KEY)
  {
    hide Word;
    hide Tame;
    hide Free;
    HeadLineIsWord(l);
    WordIsTame(l);
    HeadLineIsNoKey(l);
    TameLineIsNoKey(l, if l[0] == 'a' then 0 else 2);
  }

  lemma HeadLineIsWord(l: string)
    requires l in ACCESS_HEAD
    ensures Word(l)
  {
  }

  lemma HeadLineIsNoKey(l: string)
    requires l in ACCESS_HEAD
    ensures |l| > 4 && l[if l[0] == 'a' then 0 else 2] != CLIENTS_KEY.text[if l[0] == 'a' then 0 else 2]
  {
  }

  /** A tame line that is indented. */
  predicate Neat(l: string) {
    Tame(l) && l != "" && l[0] == ' '
  }

  lemma FieldIsNeat(key: string, value: string)
    requires Word(key) && Tame(value)
    ensures Neat(Field(key, value))
  {
    QuotedIsTame("        " + key + ": '", value);
  }

  lemma HeadingIsNeat(key: string)
    requires Word(key)
    ensures Neat(Heading(key))
  {
    WordIsTame(Heading(key));
  }

  lemma ListItemsAreNeat(items: seq<string>)
    requires TameLines(items)
    ensures forall l :: l in ListItems(items) ==> Neat(l)
  {
    forall l | l in ListItems(items) ensures Neat(l) {
      var i :| 0 <= i < |items| && ListItems(items)[i] == l;
      assert items[i] in items;
      QuotedIsTame("          - '", items[i]);
    }
  }

  lemma ClientIdIsNeat(id: string)
    requires Tame(id)
    ensures Neat("      - client_id: '" + id + "'")
  {
    QuotedIsTame("      - client_id: '", id);
  }

  lemma HeadWords()
    ensures Word("client_name") && Word("client_secret") && Word("authorization_policy") && Word("consent_mode")
    ensures Word("one_factor") && Word("implicit")
  {
  }

  lemma ListWords()
    ensures Word("redirect_uris") && Word("scopes") && Word("token_endpoint_auth_method")
  {
  }

  lemma PkceWords()
    ensures Word("pkce_challenge_method") && Word("S256") && Word("        require_pkce: true")
  {
  }

  lemma PkceLinesAreNeat(c: Client)
    ensures forall l :: l in PkceLines(c) ==> Neat(l)
  {
    hide Word;
    hide Tame;
    hide Field;
    PkceWords();
    WordIsTame("S256");
    WordIsTame("        require_pkce: true");
    FieldIsNeat("pkce_challenge_method", "S256");
  }

  lemma ClientHeadIsNeat(c: Client)
    requires TameClient(c)
    ensures forall l :: l in ClientHead(c) ==> Neat(l)
  {
    hide Neat;
    hide Tame;
    hide Word;
    hide Field;
    HeadWords();
    WordIsTame("one_factor");
    WordIsTame("implicit");
    ClientIdIsNeat(c.id);
    FieldIsNeat("client_name", c.name);
    FieldIsNeat("client_secret", c.digest);
    FieldIsNeat("authorization_policy", "one_factor");
    FieldIsNeat("consent_mode", "implicit");
  }

  lemma ClientListsAreNeat(c: Client)
    requires TameClient(c)
    ensures forall l :: l in ClientLists(c) ==> Neat(l)
  {
    hide Neat;
    hide Tame;
    hide Word;
    hide Field;
    hide Heading;
    ListItemsAreNeat(c.redirectUris);
    ListItemsAreNeat(c.scopes);
    ListWords();
    HeadingIsNeat("redirect_uris");
    HeadingIsNeat("scopes");
    FieldIsNeat("token_endpoint_auth_method", c.authMethod);
  }

  lemma {:induction false} ClientsLinesAreNeat(clients: seq<Client>)
    requires forall c :: c in clients ==> TameClient(c)
    ensures forall l :: l in ClientsLines(clients) ==> Neat(l)
  {
    hide Neat;
    hide ClientHead;
    hide ClientLists;
    hide PkceLines;
    if clients != [] {
      assert clients[0] in clients;
      ClientHeadIsNeat(clients[0]);
      PkceLinesAreNeat(clients[0]);
      ClientListsAreNeat(clients[0]);
      ClientsLinesAreNeat(clients[1..]);
    }
  }

  lemma NoBreaksConcat(s: string, u: string)
    requires NoBreaks(s) && NoBreaks(u)
    ensures NoBreaks(s + u)
  {
  }

  lemma SharedPiecesHaveNoBreaks()
    ensures NoBreaks(AccessText.MANAGED) && NoBreaks(AccessText.MARK_END)
  {
    hide NoBreaks;
    ManagedHasNoBreaks();
    EndMarkHasNoBreaks();
  }

  lemma ManagedHasNoBreaks()
    ensures NoBreaks(AccessText.MANAGED)
  {
  }

  lemma EndMarkHasNoBreaks()
    ensures NoBreaks(AccessText.MARK_END)
  {
  }

  lemma AccessPiecesHaveNoBreaks()
    ensures NoBreaks(AccessText.ACCESS_PLAN) && NoBreaks(AccessText.ACCESS_NOTE) && NoBreaks(AccessText.ACCESS_WARNING)
  {
  }

  lemma OidcPiecesHaveNoBreaks()
    ensures NoBreaks(OIDC_PLAN) && NoBreaks(OIDC_NOTE)
  {
  }

  lemma MoreOidcPiecesHaveNoBreaks()
    ensures NoBreaks(OIDC_SOURCE) && NoBreaks(OIDC_WARNING) && NoBreaks(INDENT)
  {
  }

  lemma AccessMarksAreGood()
    ensures Good(ACCESS)
  {
    hide NoBreaks;
    SharedPiecesHaveNoBreaks();
    AccessPiecesHaveNoBreaks();
    NoBreaksConcat(AccessText.MANAGED, AccessText.ACCESS_PLAN);
    NoBreaksConcat(AccessText.MANAGED + AccessText.ACCESS_PLAN, AccessText.ACCESS_NOTE);
    NoBreaksConcat(AccessText.MANAGED + AccessText.ACCESS_PLAN + AccessText.ACCESS_NOTE, AccessText.ACCESS_WARNING);
  }

  lemma OidcMarksAreGood()
    ensures Good(OIDC)
  {
    hide NoBreaks;
    SharedPiecesHaveNoBreaks();
    OidcPiecesHaveNoBreaks();
    MoreOidcPiecesHaveNoBreaks();
    var a := INDENT + AccessText.MANAGED;
    NoBreaksConcat(INDENT, AccessText.MANAGED);
    NoBreaksConcat(a, OIDC_PLAN);
    NoBreaksConcat(a + OIDC_PLAN, OIDC_NOTE);
    NoBreaksConcat(a + OIDC_PLAN + OIDC_NOTE, OIDC_SOURCE);
    NoBreaksConcat(a + OIDC_PLAN + OIDC_NOTE + OIDC_SOURCE, OIDC_WARNING);
    NoBreaksConcat(INDENT, AccessText.MARK_END);
  }

  lemma MarksAreManaged()
    ensures Managed(ACCESS) && Managed(OIDC)
  {
    NamesManaged(AccessText.MANAGED, AccessText.MARK_END, AccessText.ACCESS_PLAN, AccessText.ACCESS_NOTE, AccessText.ACCESS_WARNING);
    IndentedNamesManaged(INDENT, AccessText.MANAGED, OIDC_PLAN, OIDC_NOTE, OIDC_SOURCE, OIDC_WARNING);
  }

  lemma NamesManaged(core: string, end: string, a: string, b: string, c: string)
    ensures core + a + b + c == "" + core + (a + b + c) && end == "" + end
  {
  }

  lemma IndentedNamesManaged(indent: string, core: string, a: string, b: string, c: string, d: string)
    ensures indent + core + a + b + c + d == indent + core + (a + b + c + d)
  {
  }

  lemma MarkStarts()
    ensures ACCESS.begin[0] == '#' && ACCESS.end[0] == '#'
    ensures OIDC.begin[0] == ' ' && OIDC.begin[6] == '#' && OIDC.end[0] == ' ' && OIDC.end[6] == '#'
  {
  }

  lemma MarkLengths()
    ensures |ACCESS.end| + 1 < |OIDC.end| < |ACCESS.begin| - 1 && |ACCESS.begin| + 1 < |OIDC.begin|
  {
  }

  lemma SharedPiecesNameNoItem()
    ensures '1' in AccessText.ACCESS_PLAN && '1' !in AccessText.MANAGED && '1' !in INDENT
  {
  }

  lemma OidcPiecesNameNoItem()
    ensures '1' !in OIDC_PLAN && '1' !in OIDC_NOTE
  {
  }

  lemma MoreOidcPiecesNameNoItem()
    ensures '1' !in OIDC_SOURCE && '1' !in OIDC_WARNING
  {
  }

  lemma InConcat(c: char, a: string, b: string)
    ensures c in a + b <==> c in a || c in b
  {
  }

  /** The two begin markers name different plan items. */
  lemma MarkDigits()
    ensures '1' in ACCESS.begin && '1' !in OIDC.begin
  {
    SharedPiecesNameNoItem();
    OidcPiecesNameNoItem();
    MoreOidcPiecesNameNoItem();
    var a := AccessText.MANAGED + AccessText.ACCESS_PLAN;
    InConcat('1', AccessText.MANAGED, AccessText.ACCESS_PLAN);
    InConcat('1', a, AccessText.ACCESS_NOTE);
    InConcat('1', a + AccessText.ACCESS_NOTE, AccessText.ACCESS_WARNING);
    var o := INDENT + AccessText.MANAGED;
    InConcat('1', INDENT, AccessText.MANAGED);
    InConcat('1', o, OIDC_PLAN);
    InConcat('1', o + OIDC_PLAN, OIDC_NOTE);
    InConcat('1', o + OIDC_PLAN + OIDC_NOTE, OIDC_SOURCE);
    InConcat('1', o + OIDC_PLAN + OIDC_NOTE + OIDC_SOURCE, OIDC_WARNING);
  }

  /** A block is as inert as its three parts. */
  lemma BlockTextIsFree(m: Marks, lines: seq<string>, p: Pattern)
    requires Good(m) && Aligned(Unlines(lines)) && OneLine(p)
    requires Free(m.begin + "\n", p) && Free(Unlines(lines), p) && Free(m.end + "\n", p)
    ensures Free(BlockText(m, lines), p)
  {
    hide Find;
    hide Unlines;
    var a, x, b := m.begin + "\n", Unlines(lines), m.end + "\n";
    Assoc(m.begin, "\n", x);
    Assoc(a + x, m.end, "\n");
    FindAcross(a, x, b, p);
  }

  lemma LongPatternIsFree(t: string, p: Pattern)
    requires |t| < |p.text|
    ensures Free(t, p)
  {
    FindMeaning(t, p);
  }

  /** An unindented block with tame lines holds nothing that the client splice looks for. */
  lemma UnindentedBlockIsInert(m: Marks, other: Marks, lines: seq<string>)
    requires Good(m) && Good(other) && Managed(m) && Managed(other) && m.begin[0] == '#' && m.end[0] == '#'
    requires |m.begin| + 1 < |other.begin| && |m.end| + 1 < |other.begin|
    requires TameLines(lines) && forall l :: l in lines ==> Free(l + "\n", CLIENTS_KEY)
    ensures IsBlock(BlockText(m, lines), m) && Inert(BlockText(m, lines), other, CLIENTS_KEY)
  {
    hide Find;
    hide Unlines;
    hide BlockText;
    hide Managed;
    BlockTextIsBlock(m, lines);
    BlockIsAligned(BlockText(m, lines), m);
    LinesHoldNoBegin(lines, other);
    LongPatternIsFree(m.begin + "\n", other.Begin());
    LongPatternIsFree(m.end + "\n", other.Begin());
    BlockTextIsFree(m, lines, other.Begin());
    KeyFreeLines(lines, CLIENTS_KEY);
    NoKeyMarkers(m, CLIENTS_KEY);
    BlockTextIsFree(m, lines, CLIENTS_KEY);
  }

  lemma NoKeyMarkers(m: Marks, key: Pattern)
    requires Good(m) && key.anchored && |key.text| > 1
    requires m.begin[0] != key.text[0] && m.end[0] != key.text[0]
    ensures Free(m.begin + "\n", key) && Free(m.end + "\n", key)
  {
    BreaksByChar(m.begin);
    BreaksByChar(m.end);
    LineIsNoKey(m.begin, key, 0);
    LineIsNoKey(m.end, key, 0);
  }

  lemma BreaksByChar(s: string)
    requires NoBreaks(s)
    ensures forall c :: c in s ==> !IsTerminator(c)
  {
  }

  /** An indented block with tame lines holds nothing that the access-control splice looks for. */
  lemma IndentedBlockIsInert(m: Marks, other: Marks, lines: seq<string>)
    requires Good(m) && Good(other) && Managed(m) && Managed(other) && m.begin[0] == ' ' && m.end[0] == ' '
    requires '1' in other.begin && '1' !in m.begin && |m.end| + 1 < |other.begin|
    requires TameLines(lines) && forall l :: l in lines ==> l != "" && l[0] == ' '
    ensures IsBlock(BlockText(m, lines), m) && Inert(BlockText(m, lines), other, ACCESS_KEY)
  {
    hide Find;
    hide Unlines;
    hide BlockText;
    hide Managed;
    BlockTextIsBlock(m, lines);
    BlockIsAligned(BlockText(m, lines), m);
    LinesHoldNoBegin(lines, other);
    FreeOfChar(m.begin + "\n", other.Begin(), '1');
    LongPatternIsFree(m.end + "\n", other.Begin());
    BlockTextIsFree(m, lines, other.Begin());
    forall l | l in lines ensures Free(l + "\n", ACCESS_KEY) {
      LineIsNoKey(l, ACCESS_KEY, 0);
    }
    KeyFreeLines(lines, ACCESS_KEY);
    NoKeyMarkers(m, ACCESS_KEY);
    BlockTextIsFree(m, lines, ACCESS_KEY);
  }

  lemma AccessBlockIsInert(rules: seq<AccessPolicy.Rule>)
    requires forall r :: r in rules ==> TameRule(r)
    ensures IsBlock(AccessBlock(rules), ACCESS) && Inert(AccessBlock(rules), OIDC, CLIENTS_KEY)
  {
    hide Managed;
    hide Inert;
    hide IsBlock;
    hide AccessLines;
    hide BlockText;
    AccessMarksAreGood();
    OidcMarksAreGood();
    MarksAreManaged();
    MarkStarts();
    MarkLengths();
    AccessLinesAreTame(rules);
    UnindentedBlockIsInert(ACCESS, OIDC, AccessLines(rules));
  }

  lemma OidcBlockIsInert(clients: seq<Client>)
    requires forall c :: c in clients ==> TameClient(c)
    ensures IsBlock(OidcBlock(clients), OIDC) && Inert(OidcBlock(clients), ACCESS, ACCESS_KEY)
  {
    hide Managed;
    hide Inert;
    hide IsBlock;
    hide ClientsLines;
    hide BlockText;
    AccessMarksAreGood();
    OidcMarksAreGood();
    MarksAreManaged();
    MarkStarts();
    MarkLengths();
    MarkDigits();
    ClientsLinesAreNeat(clients);
    IndentedBlockIsInert(OIDC, ACCESS, ClientsLines(clients));
  }

  // ----- The configuration file -----

  /** The two markers are in their places and the two splices work on separate stretches. */
  ghost predicate Tidy(t: string) {
    WellPlaced(t, ACCESS) && WellPlaced(t, OIDC) && Apart(t, ACCESS, OIDC)
  }

  /** Regenerating rules and clients in either order leaves the same configuration. */
  lemma RegenerationsCommute(t: string, rules: seq<AccessPolicy.Rule>, clients: seq<Client>)
    requires Tidy(t)
    requires forall r :: r in rules ==> TameRule(r)
    requires forall c :: c in clients ==> TameClient(c)
    ensures SpliceOidc(SpliceAccess(t, ACCESS, AccessBlock(rules)), OIDC, OidcBlock(clients)) ==
            SpliceAccess(SpliceOidc(t, OIDC, OidcBlock(clients)), ACCESS, AccessBlock(rules))
  {
    hide AccessBlock;
    hide OidcBlock;
    hide IsBlock;
    AccessMarksAreGood();
    OidcMarksAreGood();
    MarkStarts();
    AccessBlockIsInert(rules);
    OidcBlockIsInert(clients);
    SplicesCommute(t, ACCESS, OIDC, AccessBlock(rules), OidcBlock(clients));
  }

  /** `configuration.yml` and how often Authelia was restarted to read it; one sync at a time. */
  class ConfigFile {
    var text: string
    var restarts: nat

    constructor (text: string)
      ensures this.text == text && restarts == 0
    {
      this.text, restarts := text, 0;
    }

    /** Writes the new text and restarts, unless nothing changed or Authelia would refuse the text. */
    method Replace(next: string, rejected: bool) returns (changed: bool)
      modifies this
      ensures changed == (next != old(text) && !rejected)
      ensures text == if rejected then old(text) else next
      ensures restarts == old(restarts) + if changed then 1 else 0
    {
      if next == text {
        return false;
      }
      if rejected {
        return false;
      }
      text := next;
      restarts := restarts + 1;
      return true;
    }

    method SyncAccessControl(rules: seq<AccessPolicy.Rule>, rejected: bool) returns (changed: bool)
      modifies this
      ensures text == if rejected then old(text) else SpliceAccess(old(text), ACCESS, AccessBlock(rules))
      ensures restarts == old(restarts) + if changed then 1 else 0
      ensures changed <==> text != old(text)
    {
      var next := SpliceAccess(text, ACCESS, AccessBlock(rules));
      changed := Replace(next, rejected);
    }

    method SyncOidcClients(clients: seq<Client>, rejected: bool) returns (changed: bool)
      modifies this
      ensures text == if rejected then old(text) else SpliceOidc(old(text), OIDC, OidcBlock(clients))
      ensures restarts == old(restarts) + if changed then 1 else 0
      ensures changed <==> text != old(text)
    {
      var lines := RenderOidcClients(clients);
      var next := SpliceOidc(text, OIDC, BlockText(OIDC, lines));
      changed := Replace(next, rejected);
    }
  }

  /** What both syncs leave is a fixed point of each of them. */
  lemma SettledBySync(t: string, rules: seq<AccessPolicy.Rule>, clients: seq<Client>)
    requires Tidy(t)
    requires forall r :: r in rules ==> TameRule(r)
    requires forall c :: c in clients ==> TameClient(c)
    ensures var a, o := AccessBlock(rules), OidcBlock(clients);
            var settled := SpliceOidc(SpliceAccess(t, ACCESS, a), OIDC, o);
            SpliceAccess(settled, ACCESS, a) == settled && SpliceOidc(settled, OIDC, o) == settled
  {
    hide AccessBlock;
    hide OidcBlock;
    hide IsBlock;
    hide SpliceAccess;
    hide SpliceOidc;
    AccessMarksAreGood();
    OidcMarksAreGood();
    MarkStarts();
    AccessBlockIsInert(rules);
    OidcBlockIsInert(clients);
    var a, o := AccessBlock(rules), OidcBlock(clients);
    SplicesCommute(t, ACCESS, OIDC, a, o);
    LastAccessSpliceWins(SpliceOidc(t, OIDC, o), ACCESS, a, a);
    LastOidcSpliceWins(SpliceAccess(t, ACCESS, a), OIDC, o, o);
  }
}
