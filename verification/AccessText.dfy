/**
 * The rule list as lines of the configuration file (backend/src/services/autheliaAccessControl.ts), written and
 * read back: every line is recognised by how it begins, and a quote inside a value is the only thing that keeps
 * a rule from being read as it was written.
 */
module AccessText {
  import opened Common
  import opened SsoUsers
  import opened AccessPolicy

  // ----- The rule list as lines of the configuration file -----

  const MANAGED := "# >>> managed by the dashboard"
  const ACCESS_PLAN := " — plan.md \U{A7}151; "
  const ACCESS_NOTE := "regenerated on every exposure"
  const ACCESS_WARNING := " change, manual edits are lost"

  const MARK_BEGIN := MANAGED + ACCESS_PLAN + ACCESS_NOTE + ACCESS_WARNING
  const MARK_END := "# <<< managed by the dashboard"

  /** The kinds of line that stand under `rules:`. */
  datatype Line =
    | Domain(name: string)
    | PolicyBypass
    | PolicyOneFactor
    | ResourcesHead
    | SubjectHead
    | Item(text: string)

  const DOMAIN := "    - domain: '"
  const ITEM := "        - '"

  function Text(line: Line): string {
    match line
    case Domain(name) => DOMAIN + name + "'"
    case PolicyBypass => "      policy: bypass"
    case PolicyOneFactor => "      policy: one_factor"
    case ResourcesHead => "      resources:"
    case SubjectHead => "      subject:"
    case Item(text) => ITEM + text + "'"
  }

  function Texts(lines: seq<Line>): (texts: seq<string>)
    ensures |texts| == |lines|
    ensures forall i :: 0 <= i < |lines| ==> texts[i] == Text(lines[i])
  {
    seq(|lines|, i requires 0 <= i < |lines| => Text(lines[i]))
  }

  function Items(texts: seq<string>): (lines: seq<Line>)
    ensures |lines| == |texts|
    ensures forall i :: 0 <= i < |texts| ==> lines[i] == Item(texts[i])
  {
    seq(|texts|, i requires 0 <= i < |texts| => Item(texts[i]))
  }

  function RuleLines(rule: Rule): seq<Line> {
    match rule
    case BypassRule(domain, resources) =>
      [Domain(domain), PolicyBypass] + if resources == [] then [] else [ResourcesHead] + Items(resources)
    case OneFactorRule(domain, subjects) =>
      [Domain(domain), PolicyOneFactor, SubjectHead] + Items(subjects)
  }

  function RulesLines(rules: seq<Rule>): seq<Line> {
    if rules == [] then [] else RuleLines(rules[0]) + RulesLines(rules[1..])
  }

  lemma {:induction false} RulesLinesConcat(a: seq<Rule>, b: seq<Rule>)
    ensures RulesLines(a + b) == RulesLines(a) + RulesLines(b)
  {
    if a == [] {
      assert a + b == b;
    } else {
      assert (a + b)[1..] == a[1..] + b;
      RulesLinesConcat(a[1..], b);
    }
  }

  lemma RulesLinesOfOne(rule: Rule)
    ensures RulesLines([rule]) == RuleLines(rule)
  {
    assert [rule][1..] == [];
  }

  lemma PortalLines(portal: Option<string>)
    ensures RulesLines(Rules(portal, [])) == if Truthy(portal) then [Domain(portal.value), PolicyBypass] else []
  {
    if Truthy(portal) {
      var rule := BypassRule(portal.value, []);
      RulesLinesOfOne(rule);
      assert RuleLines(rule) == [Domain(portal.value), PolicyBypass];
      assert Rules(portal, []) == [rule];
    }
  }

  method RenderAccessControl(portal: Option<string>, gated: seq<GatedApp>) returns (lines: seq<Line>)
    ensures lines == RulesLines(Rules(portal, gated))
  {
    hide RulesLines;
    hide Rules;
    hide AppRules;
    PortalLines(portal);
    lines := [];
    if Truthy(portal) {
      lines := lines + [Domain(portal.value), PolicyBypass];
    }
    var i := 0;
    assert gated[..0] == [];
    while i < |gated|
      invariant 0 <= i <= |gated|
      invariant lines == RulesLines(Rules(portal, gated[..i]))
    {
      var more := RenderApp(gated[i]);
      assert gated[..i + 1] == gated[..i] + [gated[i]];
      RulesLinesSnoc(portal, gated[..i], gated[i]);
      lines := lines + more;
      i := i + 1;
    }
    assert gated[..i] == gated;
  }

  lemma {:induction false} GatedRulesSnoc(gated: seq<GatedApp>, app: GatedApp)
    ensures GatedRules(gated + [app]) == GatedRules(gated) + AppRules(app)
  {
    if gated == [] {
      assert (gated + [app])[1..] == [];
    } else {
      assert (gated + [app])[0] == gated[0] && (gated + [app])[1..] == gated[1..] + [app];
      GatedRulesSnoc(gated[1..], app);
    }
  }

  lemma RulesLinesSnoc(portal: Option<string>, gated: seq<GatedApp>, app: GatedApp)
    ensures RulesLines(Rules(portal, gated + [app])) == RulesLines(Rules(portal, gated)) + RulesLines(AppRules(app))
  {
    GatedRulesSnoc(gated, app);
    Assoc(PortalRules(portal), GatedRules(gated), AppRules(app));
    RulesLinesConcat(Rules(portal, gated), AppRules(app));
  }

  function OneFactorLines(app: GatedApp): seq<Line> {
    [Domain(app.hostname), PolicyOneFactor, SubjectHead, Item("group:admins"), Item("group:" + app.group)]
  }

  function BypassHead(app: GatedApp): seq<Line> {
    [Domain(app.hostname), PolicyBypass, ResourcesHead]
  }

  lemma AppLines(app: GatedApp)
    ensures RulesLines(AppRules(app)) ==
            (if app.bypassPaths == [] then [] else BypassHead(app) + Items(app.bypassPaths)) + OneFactorLines(app)
  {
    var one := OneFactorRule(app.hostname, ["group:admins", "group:" + app.group]);
    RulesLinesOfOne(one);
    assert RuleLines(one) == OneFactorLines(app);
    if app.bypassPaths != [] {
      var bypass := BypassRule(app.hostname, app.bypassPaths);
      RulesLinesOfOne(bypass);
      RulesLinesConcat([bypass], [one]);
      assert RuleLines(bypass) == BypassHead(app) + Items(app.bypassPaths);
      hide RuleLines;
      hide RulesLines;
    } else {
      hide RuleLines;
      hide RulesLines;
      assert AppRules(app) == [one];
    }
  }

  /** The lines pushed for one gated app. */
  method RenderApp(app: GatedApp) returns (lines: seq<Line>)
    ensures lines == RulesLines(AppRules(app))
  {
    hide RulesLines;
    hide AppRules;
    AppLines(app);
    lines := [];
    if app.bypassPaths != [] {
      lines := [Domain(app.hostname), PolicyBypass, ResourcesHead];
      var i := 0;
      while i < |app.bypassPaths|
        invariant 0 <= i <= |app.bypassPaths|
        invariant lines == BypassHead(app) + Items(app.bypassPaths[..i])
      {
        lines := lines + [Item(app.bypassPaths[i])];
        i := i + 1;
      }
      assert app.bypassPaths[..i] == app.bypassPaths;
    }
    lines := lines + [Domain(app.hostname), PolicyOneFactor, SubjectHead,
                      Item("group:admins"), Item("group:" + app.group)];
  }

  /** The block to write, or None when it would hold `default_policy: deny` and no rule at all. */
  method BlockToWrite(portal: Option<string>, options: seq<AppOption>, secondary: seq<ExposureRow>, registry: Registry)
    returns (lines: Option<seq<Line>>)
    ensures var rules := Rules(portal, Gates(Exposures(options, secondary, registry)));
            && (lines.None? <==> rules == [])
            && (lines.Some? ==> lines.value == RulesLines(rules))
  {
    var extras := GetGatedSecondaryExposures(secondary, registry);
    var gated := Gates(PrimaryExposures(options, registry)) + extras;
    assert gated == Gates(Exposures(options, secondary, registry));
    if !Truthy(portal) && |gated| == 0 {
      return None;
    }
    assert gated != [] ==> GatedRules(gated) != [];
    var rendered := RenderAccessControl(portal, gated);
    lines := Some(rendered);
  }

  // ----- Reading the lines back -----

  /** The text in a single-quoted line that begins with `prefix`; no quote may stand inside. */
  function Unquote(prefix: string, line: string): Option<string> {
    if |prefix| < |line| && prefix <= line && line[|line| - 1] == '\'' && '\'' !in line[|prefix|..|line| - 1]
    then Some(line[|prefix|..|line| - 1])
    else None
  }

  /** Which kind of line a text is, by the words that Authelia goes by. */
  function Classify(s: string): Option<Line> {
    if Unquote("    - domain: '", s).Some? then Some(Domain(Unquote("    - domain: '", s).value))
    else if Unquote("        - '", s).Some? then Some(Item(Unquote("        - '", s).value))
    else if s == "      policy: bypass" then Some(PolicyBypass)
    else if s == "      policy: one_factor" then Some(PolicyOneFactor)
    else if s == "      resources:" then Some(ResourcesHead)
    else if s == "      subject:" then Some(SubjectHead)
    else None
  }

  function ClassifyAll(texts: seq<string>): Option<seq<Line>> {
    if texts == [] then Some([])
    else
      var first, rest := Classify(texts[0]), ClassifyAll(texts[1..]);
      if first.None? || rest.None? then None else Some([first.value] + rest.value)
  }

  function ReadItems(lines: seq<Line>): (items: seq<string>)
    ensures |items| <= |lines|
  {
    if lines == [] || !lines[0].Item? then [] else [lines[0].text] + ReadItems(lines[1..])
  }

  function Prepend(rule: Rule, rules: Option<seq<Rule>>): Option<seq<Rule>> {
    match rules
    case None => None
    case Some(rs) => Some([rule] + rs)
  }

  /** A rule and the number of lines it took. */
  datatype Taken = Taken(rule: Rule, length: nat)

  /** The rule that the lines begin with, if they begin with one. */
  function TakeRule(lines: seq<Line>): (t: Option<Taken>)
    ensures t.Some? ==> 0 < t.value.length <= |lines|
  {
    if |lines| < 2 || !lines[0].Domain? then None
    else
      var domain := lines[0].name;
      var listed := |lines| > 2 && (lines[2].ResourcesHead? || lines[2].SubjectHead?);
      var items := if listed then ReadItems(lines[3..]) else [];
      var length := if listed then 3 + |items| else 2;
      if lines[1].PolicyBypass? && (listed ==> lines[2].ResourcesHead?) then
        Some(Taken(BypassRule(domain, items), length))
      else if lines[1].PolicyOneFactor? && listed && lines[2].SubjectHead? then
        Some(Taken(OneFactorRule(domain, items), length))
      else None
  }

  /** The rule list that classified lines spell out, if they spell out one. */
  function ParseRules(lines: seq<Line>): Option<seq<Rule>>
    decreases |lines|
  {
    if lines == [] then Some([])
    else match TakeRule(lines)
      case None => None
      case Some(t) => Prepend(t.rule, ParseRules(lines[t.length..]))
  }

  function ReadRules(texts: seq<string>): Option<seq<Rule>> {
    match ClassifyAll(texts)
    case None => None
    case Some(lines) => ParseRules(lines)
  }

  /** No quote that would end a quoted value early. */
  predicate Plain(rule: Rule) {
    && '\'' !in rule.domain
    && match rule
       case BypassRule(_, resources) => forall r | r in resources :: '\'' !in r
       case OneFactorRule(_, subjects) => forall s | s in subjects :: '\'' !in s
  }

  predicate PlainLine(line: Line) {
    (line.Domain? ==> '\'' !in line.name) && (line.Item? ==> '\'' !in line.text)
  }

  lemma UnquoteQuoted(prefix: string, s: string)
    requires '\'' !in s
    ensures Unquote(prefix, prefix + s + "'") == Some(s)
  {
    var line := prefix + s + "'";
    assert line[|prefix|..|line| - 1] == s;
    assert line[..|prefix|] == prefix;
  }

  /** Every kind of line is recognised from its text. */
  lemma ClassifyInvertsText(line: Line)
    requires PlainLine(line)
    ensures Classify(Text(line)) == Some(line)
  {
    match line
    case Domain(name) => UnquoteQuoted(DOMAIN, name);
    case Item(text) =>
      UnquoteQuoted(ITEM, text);
      assert DOMAIN[4] == '-' && Text(line)[4] == ' ';
    case PolicyBypass => Unquoted("      policy: bypass");
    case PolicyOneFactor => Unquoted("      policy: one_factor");
    case ResourcesHead => Unquoted("      resources:");
    case SubjectHead => Unquoted("      subject:");
  }

  lemma Unquoted(s: string)
    requires s != "" && s[|s| - 1] != '\''
    ensures Unquote(DOMAIN, s).None? && Unquote(ITEM, s).None?
  {
  }

  lemma {:induction false} ClassifyAllInvertsTexts(lines: seq<Line>)
    requires forall l | l in lines :: PlainLine(l)
    ensures ClassifyAll(Texts(lines)) == Some(lines)
  {
    if lines != [] {
      assert lines[0] in lines;
      ClassifyInvertsText(lines[0]);
      assert Texts(lines)[0] == Text(lines[0]) && Texts(lines)[1..] == Texts(lines[1..]);
      assert [lines[0]] + lines[1..] == lines;
      ClassifyAllInvertsTexts(lines[1..]);
    }
  }

  lemma {:induction false} ReadItemsOfItems(items: seq<string>, rest: seq<Line>)
    requires rest == [] || !rest[0].Item?
    ensures ReadItems(Items(items) + rest) == items
  {
    var lines := Items(items) + rest;
    if items == [] {
      assert lines == rest;
    } else {
      assert lines[1..] == Items(items[1..]) + rest;
      ReadItemsOfItems(items[1..], rest);
    }
  }

  lemma TakeOneRule(rule: Rule, rest: seq<Line>)
    requires rest == [] || rest[0].Domain?
    ensures TakeRule(RuleLines(rule) + rest) == Some(Taken(rule, |RuleLines(rule)|))
  {
    match rule
    case BypassRule(domain, resources) =>
      if resources != [] {
        TakeListed([Domain(domain), PolicyBypass, ResourcesHead], resources, rest);
        assert RuleLines(rule) == [Domain(domain), PolicyBypass, ResourcesHead] + Items(resources);
      }
    case OneFactorRule(domain, subjects) =>
      TakeListed([Domain(domain), PolicyOneFactor, SubjectHead], subjects, rest);
  }

  /** A rule head of three lines takes all the items that follow it, and no more. */
  lemma TakeListed(head: seq<Line>, items: seq<string>, rest: seq<Line>)
    requires |head| == 3 && head[0].Domain?
    requires (head[1].PolicyBypass? && head[2].ResourcesHead?) || (head[1].PolicyOneFactor? && head[2].SubjectHead?)
    requires rest == [] || rest[0].Domain?
    ensures TakeRule(head + Items(items) + rest) ==
            Some(Taken(if head[1].PolicyBypass? then BypassRule(head[0].name, items)
                       else OneFactorRule(head[0].name, items), 3 + |items|))
  {
    var lines := head + Items(items) + rest;
    assert lines[3..] == Items(items) + rest;
    ReadItemsOfItems(items, rest);
  }

  lemma ParseOneRule(rule: Rule, rest: seq<Line>)
    requires rest == [] || rest[0].Domain?
    ensures ParseRules(RuleLines(rule) + rest) == Prepend(rule, ParseRules(rest))
  {
    var head := RuleLines(rule);
    TakeOneRule(rule, rest);
    assert (head + rest)[|head|..] == rest;
  }

  lemma {:induction false} ParseRulesInvertsLines(rules: seq<Rule>)
    ensures ParseRules(RulesLines(rules)) == Some(rules)
    ensures RulesLines(rules) == [] || RulesLines(rules)[0].Domain?
  {
    if rules != [] {
      var rest := RulesLines(rules[1..]);
      ParseRulesInvertsLines(rules[1..]);
      ParseOneRule(rules[0], rest);
      assert RulesLines(rules) == RuleLines(rules[0]) + rest;
      assert [rules[0]] + rules[1..] == rules;
    }
  }

  lemma {:induction false} PlainRulesHavePlainLines(rules: seq<Rule>)
    requires forall r | r in rules :: Plain(r)
    ensures forall l | l in RulesLines(rules) :: PlainLine(l)
  {
    if rules != [] {
      assert rules[0] in rules;
      PlainRulesHavePlainLines(rules[1..]);
      var items := if rules[0].BypassRule? then rules[0].resources else rules[0].subjects;
      forall l | l in Items(items) ensures PlainLine(l) {
        var i :| 0 <= i < |items| && Items(items)[i] == l;
        assert items[i] in items;
      }
    }
  }

  /** A quote inside a value ends it early: the line is refused. */
  lemma QuotedQuoteIsRefused(line: Line)
    requires !PlainLine(line)
    ensures Classify(Text(line)).None?
  {
    hide Classify;
    hide Unquote;
    var prefix, s := if line.Domain? then DOMAIN else ITEM, if line.Domain? then line.name else line.text;
    UnquoteRefuses(prefix, s);
    PrefixesDiffer(s);
    hide DOMAIN;
    hide ITEM;
    assert Text(line) == prefix + s + "'";
    RefusedText(prefix + s);
  }

  lemma PrefixesDiffer(s: string)
    ensures Unquote(ITEM, DOMAIN + s + "'").None? && Unquote(DOMAIN, ITEM + s + "'").None?
  {
    assert (DOMAIN + s + "'")[4] == '-' && (ITEM + s + "'")[4] == ' ';
  }

  lemma RefusedText(t: string)
    requires Unquote("    - domain: '", t + "'").None? && Unquote("        - '", t + "'").None?
    ensures Classify(t + "'").None?
  {
    hide Unquote;
    assert (t + "'")[|t|] == '\'';
  }

  lemma UnquoteRefuses(prefix: string, s: string)
    requires '\'' in s
    ensures Unquote(prefix, prefix + s + "'").None?
  {
    var line := prefix + s + "'";
    assert line[|prefix|..|line| - 1] == s;
  }

  lemma {:induction false} RefusedLineRefusesAll(lines: seq<Line>)
    requires ClassifyAll(Texts(lines)).Some?
    ensures forall l | l in lines :: PlainLine(l)
  {
    hide Classify;
    hide Text;
    hide PlainLine;
    if lines != [] {
      assert Texts(lines)[0] == Text(lines[0]) && Texts(lines)[1..] == Texts(lines[1..]);
      RefusedLineRefusesAll(lines[1..]);
      if !PlainLine(lines[0]) {
        QuotedQuoteIsRefused(lines[0]);
      }
    }
  }

  lemma {:induction false} PlainLinesComeFromPlainRules(rules: seq<Rule>)
    requires forall l | l in RulesLines(rules) :: PlainLine(l)
    ensures forall r | r in rules :: Plain(r)
  {
    if rules != [] {
      var first := RuleLines(rules[0]);
      assert forall l | l in first :: l in RulesLines(rules);
      assert forall l | l in RulesLines(rules[1..]) :: l in RulesLines(rules);
      PlainLinesComeFromPlainRules(rules[1..]);
      PlainRuleOfLines(rules[0]);
    }
  }

  lemma PlainRuleOfLines(rule: Rule)
    requires forall l | l in RuleLines(rule) :: PlainLine(l)
    ensures Plain(rule)
  {
    assert RuleLines(rule)[0] == Domain(rule.domain);
    assert Domain(rule.domain) in RuleLines(rule);
    var items := if rule.BypassRule? then rule.resources else rule.subjects;
    forall s | s in items ensures '\'' !in s {
      var i :| 0 <= i < |items| && items[i] == s;
      assert RuleLines(rule)[3 + i] == Item(s);
      assert Item(s) in RuleLines(rule);
    }
  }

  /** A rule list is read back unchanged from its text lines exactly when no value in it holds a quote. */
  lemma ReadRulesInvertsRendering(rules: seq<Rule>)
    ensures ReadRules(Texts(RulesLines(rules))) == Some(rules) <==> forall r | r in rules :: Plain(r)
  {
    var lines := RulesLines(rules);
    if forall r | r in rules :: Plain(r) {
      PlainRulesHavePlainLines(rules);
      ClassifyAllInvertsTexts(lines);
      ParseRulesInvertsLines(rules);
    } else if ClassifyAll(Texts(lines)).Some? {
      RefusedLineRefusesAll(lines);
      PlainLinesComeFromPlainRules(rules);
    }
  }
}
